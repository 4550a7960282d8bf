/**
 * The allocator of hw4/multilevelBF.c as it runs: the globals heap_start,
 * head and free_lists become the fields of one Heap, and malloc and free
 * become methods whose loops are the source's loops. Every method is proved
 * to leave the state that the arena functions of PoolModel, Allocation and
 * Release compute from the state before the call.
 */
module Heap {
  import opened Wrappers
  import opened SizeClass
  import opened PoolModel
  import opened BestFit
  import opened Allocation
  import Release

  /**
   * The largest payload among the free blocks of s, or 0 when none is free:
   * the value that malloc(0) reports.
   */
  function MaxFree(s: seq<nat>, hdr: map<nat, Header>): (m: nat)
    ensures forall k :: 0 <= k < |s| && IsFree(hdr, s[k]) ==> hdr[s[k]].size <= m
    ensures m == 0 || exists k :: 0 <= k < |s| && IsFree(hdr, s[k]) && hdr[s[k]].size == m
    decreases |s|
  {
    if s == [] then 0
    else
      var front := s[..|s| - 1];
      var x := s[|s| - 1];
      var m := MaxFree(front, hdr);
      assert forall k :: 0 <= k < |front| ==> front[k] == s[k];
      if IsFree(hdr, x) && hdr[x].size > m then hdr[x].size else m
  }

  /** A position of x with no x before it is the one IndexOf finds. */
  lemma IndexOfUnique(s: seq<nat>, x: nat, k: nat)
    requires k < |s| && s[k] == x && forall t :: 0 <= t < k ==> s[t] != x
    ensures IndexOf(s, x) == k
  {
    IndexOfLeast(s, x, k);
  }

  /**
   * The allocator's state. `mapped` says whether heap_start is non-NULL;
   * `chain` is the walk from `head` along next_phys (head is always the
   * block at offset 0); `hdr` holds the headers stored in the mapping;
   * `freeLists` is free_lists, each list in next_free order.
   */
  class Heap {
    var mapped: bool
    var chain: seq<nat>
    var hdr: map<nat, Header>
    const freeLists: array<seq<nat>>

    /** The state as an arena value. */
    function Snap(): Pool
      reads this, freeLists
    {
      Pool(chain, hdr, freeLists[..])
    }

    /** A mapped heap is a valid pool; an unmapped one has no blocks and empty lists. */
    ghost predicate Valid()
      reads this, freeLists
    {
      freeLists.Length == LEVELS &&
      if mapped then PoolModel.Valid(Snap())
      else chain == [] && forall l :: 0 <= l < LEVELS ==> freeLists[l] == []
    }

    /** The static storage before the first call: nothing is mapped. */
    constructor ()
      ensures Valid() && !mapped
    {
      mapped := false;
      chain := [];
      hdr := map[];
      freeLists := new seq<nat>[LEVELS](_ => []);
    }

    /** The loops that set every free list to NULL. */
    method ClearLists()
      modifies freeLists
      ensures forall l :: 0 <= l < freeLists.Length ==> freeLists[l] == []
    {
      for l := 0 to freeLists.Length
        invariant forall l' :: 0 <= l' < l ==> freeLists[l'] == []
      {
        freeLists[l] := [];
      }
    }

    /** The initialisation of a fresh mapping: one free block filed by its class. */
    method Init()
      requires Valid() && !mapped
      modifies this, freeLists
      ensures mapped && Snap() == InitialPool() && Valid()
    {
      chain := [0];
      hdr := map[0 := Header(POOL_SIZE - HEADER_SIZE, true)];
      ClearLists();
      var lvl := ComputeLevel(hdr[0].size);
      freeLists[lvl] := [0];
      mapped := true;
      InitialPoolValid();
      assert freeLists[..] == InitialPool().lists;
    }

    /** The walk of malloc(0) over the physical chain for the largest free payload. */
    method LargestFree() returns (maxsz: nat)
      ensures maxsz == MaxFree(chain, hdr)
    {
      maxsz := 0;
      var k := 0;
      while k < |chain|
        invariant k <= |chain| && maxsz == MaxFree(chain[..k], hdr)
      {
        var x := chain[k];
        assert chain[..k + 1][..k] == chain[..k];
        if x in hdr && hdr[x].free && hdr[x].size > maxsz {
          maxsz := hdr[x].size;
        }
        k := k + 1;
      }
      assert chain[..k] == chain;
    }

    /** The scan of one free list for the best candidate. */
    method ScanList(l: nat, req: nat) returns (cand: Option<nat>)
      requires l < freeLists.Length
      ensures cand == BestOf(freeLists[l], hdr, req)
    {
      var s := freeLists[l];
      cand := None;
      var k := 0;
      while k < |s|
        invariant k <= |s| && cand == BestOf(s[..k], hdr, req)
      {
        var x := s[k];
        assert s[..k + 1][..k] == s[..k];
        if x in hdr && hdr[x].free && hdr[x].size >= req && (cand.None? || hdr[x].size < hdr[cand.value].size) {
          cand := Some(x);
        }
        k := k + 1;
      }
      assert s[..k] == s;
    }

    /** The loop over the classes from the request's class upward. */
    method FindBest(req: nat) returns (found: Option<(nat, nat)>)
      requires freeLists.Length == LEVELS
      ensures found == Search(Snap(), req)
    {
      var lvl := ComputeLevel(req);
      while lvl < LEVELS
        invariant lvl <= LEVELS
        invariant Search(Snap(), req) == SearchFrom(freeLists[..], hdr, req, lvl)
        decreases LEVELS - lvl
      {
        var cand := ScanList(lvl, req);
        if cand.Some? {
          return Some((lvl, cand.value));
        }
        lvl := lvl + 1;
      }
      return None;
    }

    /** The unlink loop: the first occurrence of o leaves the list of class l. */
    method UnlinkBlock(l: nat, o: nat)
      requires l < freeLists.Length == LEVELS
      modifies freeLists
      ensures Snap() == Unlink(old(Snap()), l, o)
    {
      var s := freeLists[l];
      var k := 0;
      while k < |s| && s[k] != o
        invariant k <= |s| && o !in s[..k]
      {
        assert s[..k + 1] == s[..k] + [s[k]];
        k := k + 1;
      }
      if k < |s| {
        RemoveAt(s, o, k);
        freeLists[l] := s[..k] + s[k + 1..];
      } else {
        assert s[..k] == s;
      }
    }

    /** Filing o at the tail of the list of class l. */
    method AppendTail(l: nat, o: nat)
      requires l < freeLists.Length == LEVELS
      modifies freeLists
      ensures Snap() == Append(old(Snap()), l, o)
    {
      freeLists[l] := freeLists[l] + [o];
    }

    /** The walk of free from head to the block before o. */
    method Predecessor(o: nat) returns (prev: Option<nat>)
      requires o in chain
      ensures var i := IndexOf(chain, o); prev == if i == 0 then None else Some(chain[i - 1])
    {
      var i := IndexOf(chain, o);
      prev := None;
      var k := 0;
      while chain[k] != o
        invariant k <= i && prev == if k == 0 then None else Some(chain[k - 1])
        decreases i - k
      {
        prev := Some(chain[k]);
        k := k + 1;
      }
      IndexOfLeast(chain, o, k);
    }

    /** malloc(0) on a mapped heap: report the largest free payload and unmap. */
    method Reset() returns (maxsz: nat)
      requires Valid() && mapped
      modifies this, freeLists
      ensures Valid() && !mapped && hdr == map[]
      ensures maxsz == MaxFree(old(chain), old(hdr))
    {
      maxsz := LargestFree();
      mapped := false;
      chain := [];
      hdr := map[];
      ClearLists();
    }

    /**
     * Split the in-use block o at chain index i: it keeps req bytes and the
     * rest becomes a free block right after it, filed at the tail of its class.
     */
    method SplitBlock(i: nat, req: nat)
      requires freeLists.Length == LEVELS && i < |chain| && chain[i] in hdr
      requires hdr[chain[i]].size >= req + HEADER_SIZE + ALIGNMENT
      modifies this, freeLists
      ensures Snap() == Split(old(Snap()), i, req) && mapped == old(mapped)
    {
      var o := chain[i];
      var rest := hdr[o].size - req - HEADER_SIZE;
      var nb := o + HEADER_SIZE + req;
      chain := chain[..i + 1] + [nb] + chain[i + 1..];
      var old_hdr := hdr;
      hdr := hdr[nb := Header(rest, true)];
      var lvl := ComputeLevel(rest);
      AppendTail(lvl, nb);
      hdr := hdr[o := Header(req, hdr[o].free)];
      assert hdr == old_hdr[o := Header(req, old_hdr[o].free)][nb := Header(rest, true)];
    }

    /**
     * malloc(size). mapOk is the outcome of mmap on the first call; the
     * result of malloc(0) on a mapped heap is the reported maximum.
     */
    method Malloc(size: nat, mapOk: bool) returns (ptr: Option<nat>, report: Option<nat>)
      requires Valid() && size <= SIZE_MAX - (ALIGNMENT - 1)
      modifies this, freeLists
      ensures Valid()
      ensures size == 0 ==>
        ptr == None && !mapped && report == (if old(mapped) then Some(MaxFree(old(chain), old(hdr))) else None)
      ensures size > 0 ==> report == None
      ensures size == 0 && !old(mapped) ==> Snap() == old(Snap())
      ensures size > 0 && !old(mapped) && !mapOk ==> Snap() == old(Snap())
      ensures size > 0 && !old(mapped) && !mapOk ==> ptr == None && !mapped
      ensures size > 0 && old(mapped) ==>
        mapped && Snap() == Allocate(old(Snap()), size).0 && ptr == Allocate(old(Snap()), size).1
      ensures size > 0 && !old(mapped) && mapOk ==>
        PoolModel.Valid(InitialPool()) && mapped && Snap() == Allocate(InitialPool(), size).0 && ptr == Allocate(InitialPool(), size).1
    {
      InitialPoolValid();
      report := None;
      if !mapped && size != 0 {
        if !mapOk {
          return None, None;
        }
        Init();
      }
      if size == 0 {
        if !mapped {
          return None, None;
        }
        var maxsz := Reset();
        return None, Some(maxsz);
      }
      ptr := Serve(size);
    }

    /** The allocation part of malloc on a mapped heap. */
    method Serve(size: nat) returns (ptr: Option<nat>)
      requires Valid() && mapped && 0 < size <= SIZE_MAX - (ALIGNMENT - 1)
      modifies this, freeLists
      ensures Valid() && mapped
      ensures Snap() == Allocate(old(Snap()), size).0 && ptr == Allocate(old(Snap()), size).1
    {
      ghost var p := Snap();
      var req := RoundUp(size);
      var found := FindBest(req);
      if found.None? {
        assert Allocate(p, size) == (p, None);
        return None;
      }
      var (l, o) := found.value;
      AllocateFound(p, size);
      ghost var res := Allocate(p, size);
      assert res.0 == Carve(p, l, o, req) && res.1 == Some(o + HEADER_SIZE);
      CarveBlock(l, o, req);
      AllocateValid(p, size);
      ptr := Some(o + HEADER_SIZE);
    }

    /** Unlink the chosen block, split it when the rest can hold a block, mark it in use. */
    method CarveBlock(l: nat, o: nat, req: nat)
      requires freeLists.Length == LEVELS && l < LEVELS && o in chain && o in hdr
      modifies this, freeLists
      ensures mapped == old(mapped) && Snap() == Carve(old(Snap()), l, o, req)
    {
      ghost var p := Snap();
      UnlinkBlock(l, o);
      hdr := hdr[o := hdr[o].(free := false)];
      assert Snap() == Take(p, l, o);
      if hdr[o].size >= req + HEADER_SIZE + ALIGNMENT {
        var i := IndexOf(chain, o);
        SplitBlock(i, req);
      }
    }

    /** free(ptr) for NULL or a pointer that malloc returned and that is still in use. */
    method Free(ptr: Option<nat>)
      requires Valid()
      requires mapped && ptr.Some? ==>
        ptr.value >= HEADER_SIZE && ptr.value - HEADER_SIZE in chain && !IsFree(hdr, ptr.value - HEADER_SIZE)
      modifies this, freeLists
      ensures Valid() && mapped == old(mapped)
      ensures ptr.None? || !old(mapped) ==> Snap() == old(Snap())
      ensures ptr.Some? && old(mapped) ==> Snap() == Release.Free(old(Snap()), ptr.value - HEADER_SIZE)
    {
      if ptr.None? || !mapped {
        return;
      }
      var o := ptr.value - HEADER_SIZE;
      ghost var p := Snap();
      var i := IndexOf(chain, o);
      hdr := hdr[o := Header(hdr[o].size, true)];
      ghost var p1 := Snap();
      assert p1 == Release.MarkFree(p, o);
      RightMerge(i);
      ghost var p2 := Snap();
      assert p2 == Release.MergeRight(p1, i);
      var b := LeftMerge(i);
      assert (Snap(), b) == Release.MergeLeft(p2, i);
      var lvl := ComputeLevel(hdr[b].size);
      AppendTail(lvl, b);
      Release.FreeValid(p, o);
    }

    /** The merge of the block at chain index i with a free physical successor. */
    method RightMerge(i: nat)
      requires freeLists.Length == LEVELS && i < |chain| && Headed(chain, hdr)
      modifies this, freeLists
      ensures mapped == old(mapped) && Snap() == Release.MergeRight(old(Snap()), i)
    {
      if i + 1 < |chain| && IsFree(hdr, chain[i + 1]) {
        var o, r := chain[i], chain[i + 1];
        var lvl := ComputeLevel(hdr[r].size);
        UnlinkBlock(lvl, r);
        hdr := hdr[o := Header(hdr[o].size + HEADER_SIZE + hdr[r].size, hdr[o].free)];
        chain := chain[..i + 1] + chain[i + 2..];
      }
    }

    /**
     * The walk to the physical predecessor of the block at chain index i and
     * the merge into it when it is free; b is the block to file.
     */
    method LeftMerge(i: nat) returns (b: nat)
      requires freeLists.Length == LEVELS && i < |chain| && Headed(chain, hdr)
      requires forall k :: 0 <= k < i ==> chain[k] != chain[i]
      modifies this, freeLists
      ensures mapped == old(mapped) && (Snap(), b) == Release.MergeLeft(old(Snap()), i)
    {
      ghost var p := Snap();
      var o := chain[i];
      IndexOfUnique(chain, o, i);
      var prev := Predecessor(o);
      b := o;
      if prev.Some? && IsFree(hdr, prev.value) {
        var lf := prev.value;
        assert i > 0 && lf == p.chain[i - 1];
        var lvl := ComputeLevel(hdr[lf].size);
        UnlinkBlock(lvl, lf);
        ghost var u := Unlink(p, ClassOf(p.hdr, lf), lf);
        assert Snap() == u;
        hdr := hdr[lf := Header(hdr[lf].size + HEADER_SIZE + hdr[o].size, hdr[lf].free)];
        chain := chain[..i] + chain[i + 1..];
        b := lf;
        assert Snap() == Release.Absorb(u, i - 1);
      }
    }
  }
}
