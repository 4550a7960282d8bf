/**
 * The pool of hw4/multilevelBF.c as an arena: block headers are addressed by
 * their byte offset from the start of the mapping instead of by pointer.
 *
 *  - chain: the header offsets in physical (address) order, i.e. the list
 *    that `head` and the `next_phys` links spell out;
 *  - hdr:   the `size` and `free` fields of the header stored at an offset;
 *  - lists: for every size class, the offsets on its free list in
 *    `next_free` order, i.e. `free_lists[LEVELS]`.
 */
module PoolModel {
  import opened SizeClass

  const POOL_SIZE: nat := 20000
  const HEADER_SIZE: nat := 32

  datatype Header = Header(size: nat, free: bool)

  datatype Pool = Pool(chain: seq<nat>, hdr: map<nat, Header>, lists: seq<seq<nat>>)

  /** Every block of the chain has a header. */
  predicate Headed(chain: seq<nat>, hdr: map<nat, Header>)
  {
    forall i :: 0 <= i < |chain| ==> chain[i] in hdr
  }

  /** The offset just past the payload of the block at o. */
  function End(hdr: map<nat, Header>, o: nat): nat
    requires o in hdr
  {
    o + HEADER_SIZE + hdr[o].size
  }

  /** Each block's physical successor starts right where the block ends. */
  predicate Linked(chain: seq<nat>, hdr: map<nat, Header>)
  {
    Headed(chain, hdr) &&
    forall i :: 0 <= i < |chain| - 1 ==> chain[i + 1] == End(hdr, chain[i])
  }

  /** The chain starts at offset 0 and ends exactly at the end of the pool. */
  predicate Tiles(chain: seq<nat>, hdr: map<nat, Header>)
  {
    Linked(chain, hdr) && |chain| > 0 && chain[0] == 0 &&
    End(hdr, chain[|chain| - 1]) == POOL_SIZE
  }

  /** Every payload size is a positive multiple of the alignment unit. */
  predicate Aligned(chain: seq<nat>, hdr: map<nat, Header>)
  {
    Headed(chain, hdr) &&
    forall i :: 0 <= i < |chain| ==>
      hdr[chain[i]].size >= ALIGNMENT && hdr[chain[i]].size % ALIGNMENT == 0
  }

  predicate IsFree(hdr: map<nat, Header>, o: nat)
  {
    o in hdr && hdr[o].free
  }

  /** No two physically adjacent blocks are both free. */
  predicate Separated(chain: seq<nat>, hdr: map<nat, Header>)
  {
    forall i :: 0 <= i < |chain| - 1 ==> !(IsFree(hdr, chain[i]) && IsFree(hdr, chain[i + 1]))
  }

  predicate Distinct(s: seq<nat>)
  {
    forall i, j :: 0 <= i < j < |s| ==> s[i] != s[j]
  }

  /** The class of the block at o, recomputed from its current size. */
  function ClassOf(hdr: map<nat, Header>, o: nat): nat
    requires o in hdr
  {
    Level(hdr[o].size)
  }

  /**
   * There is one list per class; a list holds no offset twice, and only
   * free blocks of the chain whose class is that list's.
   */
  predicate Listed(p: Pool)
  {
    |p.lists| == LEVELS &&
    forall l :: 0 <= l < LEVELS ==>
      Distinct(p.lists[l]) &&
      forall o :: o in p.lists[l] ==> o in p.chain && IsFree(p.hdr, o) && ClassOf(p.hdr, o) == l
  }

  /** Every free block of the chain outside `except` is on the list of its class. */
  predicate Filed(p: Pool, except: set<nat>)
    requires |p.lists| == LEVELS
  {
    forall o :: o in p.chain && o !in except && IsFree(p.hdr, o) ==> o in p.lists[ClassOf(p.hdr, o)]
  }

  /** x is on no free list. */
  predicate Unlisted(p: Pool, x: nat)
    requires |p.lists| == LEVELS
  {
    forall l :: 0 <= l < LEVELS ==> x !in p.lists[l]
  }

  /** The invariant of a pool between two calls of malloc or free. */
  predicate Valid(p: Pool)
  {
    Tiles(p.chain, p.hdr) && Aligned(p.chain, p.hdr) && Separated(p.chain, p.hdr) &&
    Listed(p) && Filed(p, {})
  }

  /**
   * A pool in the middle of free: valid except that x is a free block of
   * the chain that is on no list yet (separation is tracked by the caller).
   */
  predicate Pending(p: Pool, x: nat)
  {
    Tiles(p.chain, p.hdr) && Aligned(p.chain, p.hdr) && Listed(p) &&
    x in p.chain && IsFree(p.hdr, x) && Unlisted(p, x) && Filed(p, {x})
  }

  // ---------------------------------------------------------------------
  // The physical chain

  /** A block's successors all start at or after its end. */
  lemma {:induction false} ChainOrder(chain: seq<nat>, hdr: map<nat, Header>, i: nat, j: nat)
    requires Linked(chain, hdr)
    requires i < j < |chain|
    ensures End(hdr, chain[i]) <= chain[j]
  {
    if i + 1 < j {
      ChainOrder(chain, hdr, i, j - 1);
    }
  }

  /** No two blocks of the chain start at the same offset. */
  lemma ChainDistinct(chain: seq<nat>, hdr: map<nat, Header>)
    requires Linked(chain, hdr)
    ensures Distinct(chain)
  {
    forall i, j | 0 <= i < j < |chain| ensures chain[i] != chain[j] {
      ChainOrder(chain, hdr, i, j);
    }
  }

  /** Every offset of the chain lies below the end of the pool. */
  lemma ChainBelowEnd(chain: seq<nat>, hdr: map<nat, Header>, i: nat)
    requires Tiles(chain, hdr) && i < |chain|
    ensures End(hdr, chain[i]) <= POOL_SIZE
  {
    if i < |chain| - 1 {
      ChainOrder(chain, hdr, i, |chain| - 1);
    }
  }

  /** The bytes the chain occupies: a header plus a payload per block. */
  function Footprint(chain: seq<nat>, hdr: map<nat, Header>): nat
    requires Headed(chain, hdr)
  {
    if chain == [] then 0 else HEADER_SIZE + hdr[chain[0]].size + Footprint(chain[1..], hdr)
  }

  lemma {:induction false} FootprintSpan(chain: seq<nat>, hdr: map<nat, Header>)
    requires Linked(chain, hdr) && |chain| > 0
    ensures chain[0] + Footprint(chain, hdr) == End(hdr, chain[|chain| - 1])
  {
    if |chain| > 1 {
      assert Linked(chain[1..], hdr);
      FootprintSpan(chain[1..], hdr);
    }
  }

  /** Chain coverage: the blocks and their headers add up to the whole pool. */
  lemma Coverage(p: Pool)
    requires Valid(p)
    ensures Footprint(p.chain, p.hdr) == POOL_SIZE
  {
    FootprintSpan(p.chain, p.hdr);
  }

  /**
   * Free-list membership: a block of a valid pool is on list l exactly when
   * it is free and l is its class; on that list it appears once.
   */
  lemma ListedExactlyOnce(p: Pool, o: nat, l: nat)
    requires Valid(p) && o in p.chain && l < LEVELS
    ensures o in p.lists[l] <==> IsFree(p.hdr, o) && l == ClassOf(p.hdr, o)
    ensures forall i, j :: 0 <= i < j < |p.lists[l]| && p.lists[l][i] == o ==> p.lists[l][j] != o
  {
  }

  // ---------------------------------------------------------------------
  // Free-list editing

  /** The list with the first occurrence of o taken out (the unlink loops). */
  function Remove(s: seq<nat>, o: nat): (r: seq<nat>)
    ensures o !in s ==> r == s
    ensures o in s ==> |r| == |s| - 1
    ensures forall x :: x in r ==> x in s
    ensures forall x :: x in s && x != o ==> x in r
    ensures Distinct(s) ==> Distinct(r) && o !in r
  {
    if s == [] then []
    else if s[0] == o then s[1..]
    else
      var r := Remove(s[1..], o);
      assert Distinct(s) ==> Distinct([s[0]] + r) by {
        if Distinct(s) {
          DistinctCons(s[0], r);
        }
      }
      [s[0]] + r
  }

  lemma DistinctCons(x: nat, s: seq<nat>)
    requires x !in s && Distinct(s)
    ensures Distinct([x] + s)
  {
    forall i, j | 0 <= i < j < |[x] + s| ensures ([x] + s)[i] != ([x] + s)[j] {
      if i > 0 {
        assert ([x] + s)[i] == s[i - 1];
      }
      assert ([x] + s)[j] == s[j - 1];
    }
  }

  /** Removing an entry just appended, and not on the list before, restores the list. */
  lemma {:induction false} RemoveSnoc(s: seq<nat>, x: nat)
    requires x !in s
    ensures Remove(s + [x], x) == s
  {
    if s == [] {
      assert [] + [x] == [x];
    } else {
      assert (s + [x])[0] == s[0] && (s + [x])[1..] == s[1..] + [x];
      RemoveSnoc(s[1..], x);
      assert s == [s[0]] + s[1..];
    }
  }

  /** Removing an entry that is on the list takes exactly one copy of it away. */
  lemma {:induction false} RemoveMultiset(s: seq<nat>, o: nat)
    requires o in s
    ensures multiset(Remove(s, o)) + multiset{o} == multiset(s)
  {
    assert s == [s[0]] + s[1..];
    if s[0] != o {
      RemoveMultiset(s[1..], o);
    }
  }

  /** Removing the first occurrence is cutting out its index. */
  lemma {:induction false} RemoveAt(s: seq<nat>, o: nat, k: nat)
    requires k < |s| && s[k] == o && o !in s[..k]
    ensures Remove(s, o) == s[..k] + s[k + 1..]
  {
    if k > 0 {
      assert s[1..][..k - 1] == s[1..k];
      assert o !in s[1..][..k - 1];
      RemoveAt(s[1..], o, k - 1);
      assert s[1..][k..] == s[k + 1..];
    }
  }

  /** Take o off the free list of class l. */
  function Unlink(p: Pool, l: nat, o: nat): (q: Pool)
    requires l < |p.lists|
    ensures q.chain == p.chain && q.hdr == p.hdr && |q.lists| == |p.lists|
    ensures forall l' :: 0 <= l' < |p.lists| && l' != l ==> q.lists[l'] == p.lists[l']
  {
    p.(lists := p.lists[l := Remove(p.lists[l], o)])
  }

  /** Append o to the tail of the free list of class l. */
  function Append(p: Pool, l: nat, o: nat): (q: Pool)
    requires l < |p.lists|
  {
    p.(lists := p.lists[l := p.lists[l] + [o]])
  }

  /** Taking a free block off its class list leaves it on no list at all. */
  lemma UnlinkFree(p: Pool, x: nat, except: set<nat>)
    requires Listed(p) && x in p.chain && IsFree(p.hdr, x)
    ensures Listed(Unlink(p, ClassOf(p.hdr, x), x))
    ensures Unlisted(Unlink(p, ClassOf(p.hdr, x), x), x)
    ensures Filed(p, except) ==> Filed(Unlink(p, ClassOf(p.hdr, x), x), except + {x})
    ensures forall y :: Unlisted(p, y) ==> Unlisted(Unlink(p, ClassOf(p.hdr, x), x), y)
  {
    var l := ClassOf(p.hdr, x);
    var q := Unlink(p, l, x);
    forall l' | 0 <= l' < LEVELS && l' != l ensures x !in q.lists[l'] {
      assert q.lists[l'] == p.lists[l'];
    }
  }

  /** The position of x in s; the chain walks of the source. */
  function IndexOf(s: seq<nat>, x: nat): (i: nat)
    requires x in s
    ensures i < |s| && s[i] == x && x !in s[..i]
  {
    if s[0] == x then 0
    else
      var i := 1 + IndexOf(s[1..], x);
      assert s[..i] == [s[0]] + s[1..][..i - 1];
      i
  }

  /** IndexOf finds the first position of x. */
  lemma {:induction false} IndexOfLeast(s: seq<nat>, x: nat, k: nat)
    requires k < |s| && s[k] == x
    ensures IndexOf(s, x) <= k
  {
    if s[0] != x {
      assert s[1..][k - 1] == x;
      IndexOfLeast(s[1..], x, k - 1);
    }
  }
}
