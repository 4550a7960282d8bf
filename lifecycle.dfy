/**
 * malloc and free of hw4/multilevelBF.c used together: freeing the block a
 * malloc just returned gives back the pool malloc started from, and the
 * first two requests on a fresh pool.
 */
module Lifecycle {
  import opened Wrappers
  import opened SizeClass
  import opened PoolModel
  import opened BestFit
  import opened Allocation
  import Release

  /** Neither physical neighbour of block i is free. */
  predicate Secluded(p: Pool, i: nat)
    requires i < |p.chain|
  {
    (i > 0 ==> !IsFree(p.hdr, p.chain[i - 1])) && (i + 1 < |p.chain| ==> !IsFree(p.hdr, p.chain[i + 1]))
  }

  /** The neighbours of a free block of a valid pool are in use. */
  lemma NeighboursInUse(p: Pool, i: nat)
    requires Valid(p) && i < |p.chain| && IsFree(p.hdr, p.chain[i])
    ensures Secluded(p, i)
  {
    if i > 0 {
      Release.SeparatedAt(p.chain, p.hdr, i - 1);
    }
    if i + 1 < |p.chain| {
      Release.SeparatedAt(p.chain, p.hdr, i);
    }
  }

  /**
   * The last steps of freeing block o once the chain and the headers on it
   * are p's again and o is off its list: the block before o is in use, so
   * no left merge happens, and o is filed at the tail of its class list.
   */
  lemma FileBack(p: Pool, o: nat, r: Pool)
    requires Headed(p.chain, p.hdr) && |p.lists| == LEVELS && o in p.chain && o in p.hdr
    requires Secluded(p, IndexOf(p.chain, o))
    requires r.chain == p.chain && r.lists == Unlink(p, ClassOf(p.hdr, o), o).lists
    requires forall x :: x in p.chain ==> x in r.hdr && r.hdr[x] == p.hdr[x]
    ensures var i := IndexOf(p.chain, o);
      Headed(r.chain, r.hdr) && |r.lists| == LEVELS &&
      Release.MergeLeft(r, i) == (r, o) &&
      Release.File(r, o) == r.(lists := Release.MovedToTail(p, ClassOf(p.hdr, o), o))
  {
    var i := IndexOf(p.chain, o);
    if i > 0 {
      assert p.chain[i - 1] in p.chain;
    }
  }

  /**
   * A block handed over whole and freed again: neither neighbour is free,
   * so free only files it back, at the tail of its class list.
   */
  lemma FreeTaken(p: Pool, o: nat)
    requires Headed(p.chain, p.hdr) && |p.lists| == LEVELS && o in p.chain && IsFree(p.hdr, o)
    requires Distinct(p.chain) && Secluded(p, IndexOf(p.chain, o))
    ensures var t := Take(p, ClassOf(p.hdr, o), o);
      Headed(t.chain, t.hdr) && o in t.chain &&
      Release.Free(t, o) == p.(lists := Release.MovedToTail(p, ClassOf(p.hdr, o), o))
  {
    var l := ClassOf(p.hdr, o);
    var t := Take(p, l, o);
    var i := IndexOf(p.chain, o);
    var m := Release.MarkFree(t, o);
    assert m.hdr == p.hdr;
    assert m == Unlink(p, l, o);
    if i + 1 < |p.chain| {
      assert !IsFree(m.hdr, m.chain[i + 1]);
    }
    assert Release.MergeRight(m, i) == m;
    FileBack(p, o, m);
  }

  /** The pool after malloc split block i to req bytes, with block i marked free again. */
  function SplitFreed(p: Pool, i: nat, req: nat): Pool
    requires i < |p.chain| && p.chain[i] in p.hdr && |p.lists| == LEVELS
    requires p.hdr[p.chain[i]].size >= req + HEADER_SIZE + ALIGNMENT
  {
    var o := p.chain[i];
    var nb, rest := o + HEADER_SIZE + req, p.hdr[o].size - req - HEADER_SIZE;
    var u := Unlink(p, ClassOf(p.hdr, o), o);
    Pool(p.chain[..i + 1] + [nb] + p.chain[i + 1..],
         p.hdr[o := Header(req, true)][nb := Header(rest, true)],
         u.lists[Level(rest) := u.lists[Level(rest)] + [nb]])
  }

  /** Freeing the split block first marks it free; the walk finds it where it was. */
  lemma SplitMarked(p: Pool, o: nat, req: nat)
    requires Linked(p.chain, p.hdr) && |p.lists| == LEVELS && o in p.chain && o in p.hdr
    requires p.hdr[o].size >= req + HEADER_SIZE + ALIGNMENT
    ensures var c, i := Carve(p, ClassOf(p.hdr, o), o, req), IndexOf(p.chain, o);
      o in c.chain && o in c.hdr && IndexOf(c.chain, o) == i &&
      Release.MarkFree(c, o) == SplitFreed(p, i, req)
  {
    var l, i := ClassOf(p.hdr, o), IndexOf(p.chain, o);
    var nb, rest := o + HEADER_SIZE + req, p.hdr[o].size - req - HEADER_SIZE;
    var c := Carve(p, l, o, req);
    CarveSplits(p, o, req);
    assert c.hdr == p.hdr[o := Header(req, false)][nb := Header(rest, true)] by {
      var t := Take(p, l, o);
      assert c == Split(t, i, req) && t.chain[i] == o;
      Overwritten(p.hdr, o, nb, Header(p.hdr[o].size, false), Header(req, false));
    }
    assert c.chain[i] == o && c.chain[..i] == p.chain[..i];
    IndexOfLeast(c.chain, o, i);
    var m, sf := Release.MarkFree(c, o), SplitFreed(p, i, req);
    assert m.chain == sf.chain && m.lists == sf.lists;
    assert m.hdr == sf.hdr by {
      Swapped(p.hdr, o, nb, Header(req, false), Header(rest, true), Header(req, true));
    }
  }

  /** A second update of the same key replaces the first. */
  lemma Overwritten(h: map<nat, Header>, o: nat, nb: nat, a: Header, b: Header)
    ensures h[o := a][o := b] == h[o := b]
  {
    var g, k := h[o := a][o := b], h[o := b];
    assert g.Keys == k.Keys;
  }

  /** Updates of two different keys commute, and a later update of o replaces the earlier one. */
  lemma Swapped(h: map<nat, Header>, o: nat, nb: nat, a: Header, b: Header, d: Header)
    requires o != nb
    ensures h[o := a][nb := b][o := d] == h[o := d][nb := b]
  {
    var g, k := h[o := a][nb := b][o := d], h[o := d][nb := b];
    assert g.Keys == k.Keys;
    forall x | x in g ensures g[x] == k[x] {
    }
  }

  /** Every entry of every list is a block of the chain. */
  predicate OnChain(p: Pool)
    requires |p.lists| == LEVELS
  {
    forall l :: 0 <= l < LEVELS ==> forall x :: x in p.lists[l] ==> x in p.chain
  }

  /** The chain of the freed split pool: the remainder, fresh, right after block i. */
  lemma SplitFreedChain(p: Pool, o: nat, req: nat)
    requires Linked(p.chain, p.hdr) && |p.lists| == LEVELS && o in p.chain && o in p.hdr
    requires p.hdr[o].size >= req + HEADER_SIZE + ALIGNMENT
    ensures var i, nb := IndexOf(p.chain, o), o + HEADER_SIZE + req;
      var m := SplitFreed(p, i, req);
      nb !in p.chain && Headed(m.chain, m.hdr) && i + 1 < |m.chain| &&
      m.chain[i] == o && m.chain[i + 1] == nb &&
      m.chain[..i + 1] + m.chain[i + 2..] == p.chain
  {
    var i, nb := IndexOf(p.chain, o), o + HEADER_SIZE + req;
    var m := SplitFreed(p, i, req);
    RemainderFresh(p, i, req);
    assert nb !in p.chain;
    forall k | 0 <= k < |m.chain| ensures m.chain[k] in m.hdr {
      if k > i + 1 {
        assert m.chain[k] == p.chain[k - 1];
      }
    }
    assert m.chain[..i + 1] == p.chain[..i + 1];
    assert m.chain[i + 2..] == p.chain[i + 1..];
    assert p.chain[..i + 1] + p.chain[i + 1..] == p.chain;
  }

  /** The offset of the remainder is on no list: it is not a block of the chain. */
  lemma RemainderOffLists(p: Pool, o: nat, req: nat)
    requires Linked(p.chain, p.hdr) && |p.lists| == LEVELS && OnChain(p)
    requires o in p.chain && p.hdr[o].size > req
    ensures forall l :: 0 <= l < LEVELS ==> o + HEADER_SIZE + req !in p.lists[l]
  {
    var i := IndexOf(p.chain, o);
    RemainderFresh(p, i, req);
    assert o + HEADER_SIZE + req !in p.chain;
  }

  /** Unlinking the remainder from the tail of its list leaves the lists of the carved-out pool. */
  lemma RemainderUnlinked(p: Pool, o: nat, req: nat)
    requires |p.lists| == LEVELS && o in p.chain && o in p.hdr
    requires p.hdr[o].size >= req + HEADER_SIZE + ALIGNMENT
    requires forall l :: 0 <= l < LEVELS ==> o + HEADER_SIZE + req !in p.lists[l]
    ensures var i, nb := IndexOf(p.chain, o), o + HEADER_SIZE + req;
      var m := SplitFreed(p, i, req);
      nb in m.hdr && Unlink(m, ClassOf(m.hdr, nb), nb).lists == Unlink(p, ClassOf(p.hdr, o), o).lists
  {
    var l, i := ClassOf(p.hdr, o), IndexOf(p.chain, o);
    var nb, rest := o + HEADER_SIZE + req, p.hdr[o].size - req - HEADER_SIZE;
    var m := SplitFreed(p, i, req);
    SnocUnlinked(p.lists, l, o, Level(rest), nb);
    assert ClassOf(m.hdr, nb) == Level(rest);
  }

  /** Appending a fresh entry to one list and removing it again restores the lists. */
  lemma SnocUnlinked(lists: seq<seq<nat>>, l: nat, o: nat, lv: nat, x: nat)
    requires l < |lists| && lv < |lists|
    requires forall k :: 0 <= k < |lists| ==> x !in lists[k]
    ensures var u := lists[l := Remove(lists[l], o)];
      u[lv := u[lv] + [x]][lv := Remove(u[lv] + [x], x)] == u
  {
    var u := lists[l := Remove(lists[l], o)];
    assert x !in lists[lv];
    assert x !in u[lv];
    RemoveSnoc(u[lv], x);
  }

  /**
   * The right merge of the freed split block absorbs the free remainder
   * after it, takes the remainder off the tail of its list, and gives the
   * block back its old size.
   */
  lemma MergeRemainder(p: Pool, o: nat, req: nat)
    requires Linked(p.chain, p.hdr) && |p.lists| == LEVELS && OnChain(p)
    requires o in p.chain && IsFree(p.hdr, o)
    requires p.hdr[o].size >= req + HEADER_SIZE + ALIGNMENT
    ensures var i, nb := IndexOf(p.chain, o), o + HEADER_SIZE + req;
      var m := SplitFreed(p, i, req);
      nb !in p.chain && Headed(m.chain, m.hdr) && i < |m.chain| &&
      Release.MergeRight(m, i) ==
        Pool(p.chain, p.hdr[nb := Header(p.hdr[o].size - req - HEADER_SIZE, true)], Unlink(p, ClassOf(p.hdr, o), o).lists)
  {
    var i := IndexOf(p.chain, o);
    var m := SplitFreed(p, i, req);
    SplitFreedChain(p, o, req);
    SplitFreedRemainder(p, o, req);
    AbsorbedFree(m, i);
  }

  /**
   * In the freed split pool both halves are free, the remainder comes off
   * its list as it went on, and growing the block by the remainder gives
   * the block back its old header.
   */
  lemma SplitFreedRemainder(p: Pool, o: nat, req: nat)
    requires Linked(p.chain, p.hdr) && |p.lists| == LEVELS && OnChain(p)
    requires o in p.chain && IsFree(p.hdr, o)
    requires p.hdr[o].size >= req + HEADER_SIZE + ALIGNMENT
    ensures var i, nb, rest := IndexOf(p.chain, o), o + HEADER_SIZE + req, p.hdr[o].size - req - HEADER_SIZE;
      var m := SplitFreed(p, i, req);
      m.hdr[o] == Header(req, true) && nb in m.hdr && m.hdr[nb] == Header(rest, true) &&
      Unlink(m, ClassOf(m.hdr, nb), nb).lists == Unlink(p, ClassOf(p.hdr, o), o).lists &&
      m.hdr[o := Header(req + HEADER_SIZE + rest, true)] == p.hdr[nb := Header(rest, true)]
  {
    var i := IndexOf(p.chain, o);
    var nb, rest := o + HEADER_SIZE + req, p.hdr[o].size - req - HEADER_SIZE;
    RemainderOffLists(p, o, req);
    RemainderUnlinked(p, o, req);
    var a, b := Header(req, true), Header(rest, true);
    assert Header(req + HEADER_SIZE + rest, true) == p.hdr[o];
    Restored(p.hdr, o, nb, a, b);
  }

  /** The right merge of block i with a free successor, written out. */
  lemma AbsorbedFree(m: Pool, i: nat)
    requires i + 1 < |m.chain| && Headed(m.chain, m.hdr) && |m.lists| == LEVELS
    requires IsFree(m.hdr, m.chain[i + 1])
    ensures var o, r := m.chain[i], m.chain[i + 1];
      Release.MergeRight(m, i) ==
        Pool(m.chain[..i + 1] + m.chain[i + 2..],
             m.hdr[o := Header(m.hdr[o].size + HEADER_SIZE + m.hdr[r].size, m.hdr[o].free)],
             Unlink(m, ClassOf(m.hdr, r), r).lists)
  {
  }

  /** Rewriting the header at o to its old value undoes the earlier update of o. */
  lemma Restored(h: map<nat, Header>, o: nat, nb: nat, a: Header, b: Header)
    requires o in h && o != nb
    ensures h[o := a][nb := b][o := h[o]] == h[nb := b]
  {
    var g, k := h[o := a][nb := b][o := h[o]], h[nb := b];
    assert g.Keys == k.Keys;
    forall x | x in g ensures g[x] == k[x] {
    }
  }

  /**
   * A block split by malloc and freed again: the fresh remainder after it
   * is free and absorbed back, the block before it is in use, and the block
   * regains its old size and goes to the tail of its class list. Only the
   * stale header of the remainder stays behind, off the chain.
   */
  lemma FreeSplit(p: Pool, o: nat, req: nat)
    requires Linked(p.chain, p.hdr) && |p.lists| == LEVELS && OnChain(p)
    requires o in p.chain && IsFree(p.hdr, o) && Secluded(p, IndexOf(p.chain, o))
    requires p.hdr[o].size >= req + HEADER_SIZE + ALIGNMENT
    ensures var c, nb := Carve(p, ClassOf(p.hdr, o), o, req), o + HEADER_SIZE + req;
      nb !in p.chain && Headed(c.chain, c.hdr) && o in c.chain &&
      Release.Free(c, o) ==
        Pool(p.chain, p.hdr[nb := Header(p.hdr[o].size - req - HEADER_SIZE, true)], Release.MovedToTail(p, ClassOf(p.hdr, o), o))
  {
    var l, i := ClassOf(p.hdr, o), IndexOf(p.chain, o);
    var c := Carve(p, l, o, req);
    SplitMarked(p, o, req);
    MergeRemainder(p, o, req);
    var r := Release.MergeRight(SplitFreed(p, i, req), i);
    FileBack(p, o, r);
    assert Headed(c.chain, c.hdr) by {
      CarveSplits(p, o, req);
    }
  }

  /** Carving a free block of a valid pool and freeing it again, in both cases of the split. */
  lemma FreeCarved(p: Pool, o: nat, req: nat)
    requires Valid(p) && o in p.chain && IsFree(p.hdr, o)
    ensures var c := Carve(p, ClassOf(p.hdr, o), o, req);
      Headed(c.chain, c.hdr) && o in c.chain &&
      var q := Release.Free(c, o);
      q.chain == p.chain && (forall x :: x in p.chain ==> x in q.hdr && q.hdr[x] == p.hdr[x]) &&
      q.lists == Release.MovedToTail(p, ClassOf(p.hdr, o), o)
  {
    NeighboursInUse(p, IndexOf(p.chain, o));
    if p.hdr[o].size >= req + HEADER_SIZE + ALIGNMENT {
      assert OnChain(p);
      FreeSplit(p, o, req);
    } else {
      ChainDistinct(p.chain, p.hdr);
      FreeTaken(p, o);
    }
  }

  /** q is p after carving req bytes from the block at o, as malloc does with the block it finds. */
  predicate Handed(p: Pool, o: nat, req: nat, q: Pool)
  {
    |p.lists| == LEVELS && o in p.chain && o in p.hdr && q == Carve(p, ClassOf(p.hdr, o), o, req)
  }

  /**
   * Carving a listed free block for an aligned request and freeing it again
   * keeps the pool valid throughout and restores it up to list order.
   */
  lemma CarveFreeValid(p: Pool, ptr: nat, req: nat, c: Pool)
    requires Valid(p) && ptr >= HEADER_SIZE
    requires ptr - HEADER_SIZE in p.chain && Fits(p.hdr, ptr - HEADER_SIZE, req)
    requires req >= ALIGNMENT && req % ALIGNMENT == 0
    requires Handed(p, ptr - HEADER_SIZE, req, c)
    ensures Release.Restores(p, c, ptr)
  {
    var o := ptr - HEADER_SIZE;
    CarveValid(p, o, req);
    CarveHandsOver(p, o, req);
    Release.FreeValid(c, o);
    FreeCarved(p, o, req);
    assert o in p.lists[ClassOf(p.hdr, o)];
  }

  /**
   * What a successful malloc hands over: a free block of p large enough for
   * the rounded request, and the pool malloc leaves is p with that block
   * carved out.
   */
  lemma AllocatedBlock(p: Pool, size: nat, q0: Pool, ptr: nat)
    requires Valid(p) && 0 < size <= SIZE_MAX - (ALIGNMENT - 1)
    requires Allocate(p, size) == (q0, Some(ptr))
    ensures ptr >= HEADER_SIZE
    ensures var o := ptr - HEADER_SIZE;
      o in p.chain && Fits(p.hdr, o, RoundUp(size)) && Handed(p, o, RoundUp(size), q0)
  {
    var req := RoundUp(size);
    assert Search(p, req).Some?;
    var (l, o) := Search(p, req).value;
    SearchBestFit(p, req);
    AllocateFound(p, size);
    assert ptr == o + HEADER_SIZE && q0 == Carve(p, l, o, req);
    assert o == ptr - HEADER_SIZE && l == ClassOf(p.hdr, o);
  }

  /**
   * The round trip of malloc and free: freeing the block a successful malloc
   * returned gives back the chain and every block's header, each list holds
   * the same blocks (the block returns at the tail of its list), and the pool
   * remains valid, so its blocks still cover the whole pool.
   */
  lemma RoundTrip(p: Pool, size: nat, q0: Pool, ptr: nat)
    requires Valid(p) && 0 < size <= SIZE_MAX - (ALIGNMENT - 1)
    requires Allocate(p, size) == (q0, Some(ptr))
    ensures ptr >= HEADER_SIZE && ptr - HEADER_SIZE in p.chain
    ensures Release.Restores(p, q0, ptr)
  {
    var req := RoundUp(size);
    AllocatedBlock(p, size, q0, ptr);
    assert req >= ALIGNMENT && req % ALIGNMENT == 0;
    CarveFreeValid(p, ptr, req, q0);
  }

  /**
   * The first request on a fresh pool, whose chain is one free block of
   * 19968 bytes: malloc(100) rounds to 128 bytes, takes them from the start
   * of that block and leaves a free block of exactly 19968 - 128 - 32 =
   * 19808 bytes at offset 160.
   */
  lemma FirstRequest(p0: Pool, p1: Pool, ptr: Option<nat>)
    requires Valid(p0) && p0.chain == [0] && p0.hdr[0] == Header(INITIAL_SIZE, true)
    requires Allocate(p0, 100) == (p1, ptr)
    ensures ptr == Some(HEADER_SIZE) && Valid(p1) && p1.chain == [0, 160]
    ensures p1.hdr[0] == Header(128, false) && p1.hdr[160] == Header(19808, true)
  {
    Roundings();
    SoleBlockCarves(p0, 100);
    WholeBlockCarve(p0);
    AllocateValid(p0, 100);
  }

  /** The two requests of FirstTwoRequests, rounded to the alignment unit. */
  lemma Roundings()
    ensures RoundUp(100) == 128 && RoundUp(19808) == 19808
  {
  }

  /**
   * A request that fits the sole block of a pool whose chain is one free
   * block is carved from the start of that block, and malloc returns the
   * address right after its header.
   */
  lemma SoleBlockCarves(p0: Pool, size: nat)
    requires Valid(p0) && p0.chain == [0] && 0 < size <= SIZE_MAX - (ALIGNMENT - 1)
    requires Fits(p0.hdr, 0, RoundUp(size))
    ensures Allocate(p0, size).1 == Some(HEADER_SIZE)
    ensures Allocate(p0, size).0 == Carve(p0, ClassOf(p0.hdr, 0), 0, RoundUp(size))
  {
    var (p1, ptr) := Allocate(p0, size);
    AllocateExhausted(p0, size);
    AllocatedBlock(p0, size, p1, ptr.value);
    var o := ptr.value - HEADER_SIZE;
    assert p1 == Carve(p0, ClassOf(p0.hdr, o), o, RoundUp(size));
    assert o in [0];
    assert ptr.value == HEADER_SIZE;
  }

  /** Carving 128 bytes from a chain of one 19968-byte block splits it at offset 160. */
  lemma WholeBlockCarve(p0: Pool)
    requires Linked(p0.chain, p0.hdr) && |p0.lists| == LEVELS
    requires p0.chain == [0] && p0.hdr[0] == Header(INITIAL_SIZE, true)
    ensures var c := Carve(p0, ClassOf(p0.hdr, 0), 0, 128);
      c.chain == [0, 160] && c.hdr[0] == Header(128, false) && c.hdr[160] == Header(19808, true)
  {
    CarveSplits(p0, 0, 128);
    assert IndexOf(p0.chain, 0) == 0;
    assert p0.chain[..1] + [160] + p0.chain[1..] == [0, 160];
  }

  /**
   * A request for exactly the size of the one free block of a two-block pool
   * like the one the first request leaves: the fit test of malloc accepts a
   * block of exactly the requested size, so malloc hands that block over.
   */
  lemma SecondRequest(p1: Pool)
    requires Valid(p1) && p1.chain == [0, 160]
    requires p1.hdr[0] == Header(128, false) && p1.hdr[160] == Header(19808, true)
    ensures Allocate(p1, 19808).1 == Some(160 + HEADER_SIZE)
  {
    Roundings();
    assert Fits(p1.hdr, 160, 19808);
    AllocateExhausted(p1, 19808);
    var (q, ptr) := Allocate(p1, 19808);
    AllocatedBlock(p1, 19808, q, ptr.value);
    assert !IsFree(p1.hdr, 0);
    assert ptr.value - HEADER_SIZE in [0, 160];
    assert ptr.value == 160 + HEADER_SIZE;
  }

  /**
   * The first two requests on a fresh pool: malloc(100) returns the address
   * right after the first header, and malloc(19808) then receives the
   * remaining free block whole.
   */
  lemma FirstTwoRequests()
    ensures Valid(InitialPool()) && Allocate(InitialPool(), 100).1 == Some(HEADER_SIZE)
    ensures var p1 := Allocate(InitialPool(), 100).0;
      Valid(p1) && Allocate(p1, 19808).1 == Some(160 + HEADER_SIZE)
  {
    InitialPoolValid();
    FirstRequest(InitialPool(), Allocate(InitialPool(), 100).0, Allocate(InitialPool(), 100).1);
    SecondRequest(Allocate(InitialPool(), 100).0);
  }
}
