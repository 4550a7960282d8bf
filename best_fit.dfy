/**
 * The best-fit search of malloc (hw4/multilevelBF.c): the classes are tried
 * from the request's own class upward; within a class the whole list is
 * scanned for the smallest free block that is large enough, and the first
 * class that yields one ends the search.
 */
module BestFit {
  import opened Wrappers
  import opened SizeClass
  import opened PoolModel

  /** The test the scan applies to each list entry. */
  predicate Fits(hdr: map<nat, Header>, o: nat, req: nat)
  {
    IsFree(hdr, o) && hdr[o].size >= req
  }

  /**
   * The scan of one list in next_free order: the candidate is replaced only
   * by a strictly smaller fitting block, so it is the first of the smallest.
   */
  function BestOf(s: seq<nat>, hdr: map<nat, Header>, req: nat): (c: Option<nat>)
    ensures c.Some? ==> c.value in s && Fits(hdr, c.value, req)
    ensures c.Some? ==> forall y :: y in s && Fits(hdr, y, req) ==> hdr[c.value].size <= hdr[y].size
    ensures c.None? ==> forall y :: y in s ==> !Fits(hdr, y, req)
    decreases |s|
  {
    if s == [] then None
    else
      var front := s[..|s| - 1];
      var x := s[|s| - 1];
      assert s == front + [x];
      var c := BestOf(front, hdr, req);
      if Fits(hdr, x, req) && (c.None? || hdr[x].size < hdr[c.value].size) then Some(x) else c
  }

  /** The scan's tie rule: the candidate comes no later than any fitting block of its size. */
  lemma {:induction false} BestOfFirst(s: seq<nat>, hdr: map<nat, Header>, req: nat, k: nat)
    requires BestOf(s, hdr, req).Some? && k < |s| && Fits(hdr, s[k], req)
    requires hdr[s[k]].size == hdr[BestOf(s, hdr, req).value].size
    ensures exists j :: 0 <= j <= k && s[j] == BestOf(s, hdr, req).value
    decreases |s|
  {
    var front := s[..|s| - 1];
    var x := s[|s| - 1];
    assert s == front + [x];
    var c := BestOf(front, hdr, req);
    if k < |s| - 1 {
      assert s[k] == front[k] && front[k] in front;
      BestOfFirst(front, hdr, req, k);
      var j :| 0 <= j <= k && front[j] == c.value;
      assert s[j] == front[j];
    } else {
      assert s[k] == x;
    }
  }

  /**
   * The loop over the classes from lvl upward: the class and offset of the
   * first class whose scan yields a candidate.
   */
  function SearchFrom(lists: seq<seq<nat>>, hdr: map<nat, Header>, req: nat, lvl: nat): (r: Option<(nat, nat)>)
    requires |lists| == LEVELS && lvl <= LEVELS
    ensures r.Some? ==> lvl <= r.value.0 < LEVELS && BestOf(lists[r.value.0], hdr, req) == Some(r.value.1)
    ensures r.Some? ==> forall l :: lvl <= l < r.value.0 ==> BestOf(lists[l], hdr, req).None?
    ensures r.None? ==> forall l :: lvl <= l < LEVELS ==> BestOf(lists[l], hdr, req).None?
    decreases LEVELS - lvl
  {
    if lvl == LEVELS then None
    else match BestOf(lists[lvl], hdr, req)
      case Some(x) => Some((lvl, x))
      case None => SearchFrom(lists, hdr, req, lvl + 1)
  }

  /** The search of malloc for a rounded request req. */
  function Search(p: Pool, req: nat): (r: Option<(nat, nat)>)
    requires |p.lists| == LEVELS
  {
    SearchFrom(p.lists, p.hdr, req, Level(req))
  }

  /** The block the search finds is on the chain and has a header. */
  lemma SearchListed(p: Pool, req: nat)
    requires Listed(p) && Search(p, req).Some?
    ensures Search(p, req).value.1 in p.chain && Search(p, req).value.1 in p.hdr
  {
    var (l, o) := Search(p, req).value;
    assert o in p.lists[l];
  }

  /**
   * Block o is a best fit for req: free and large enough, in the lowest
   * class holding any large enough free block (and not below req's own
   * class), and no large enough free block of that class is smaller.
   */
  predicate BestFitFor(p: Pool, o: nat, req: nat)
  {
    o in p.chain && Fits(p.hdr, o, req) && Level(req) <= ClassOf(p.hdr, o) &&
    (forall y :: y in p.chain && Fits(p.hdr, y, req) ==> ClassOf(p.hdr, o) <= ClassOf(p.hdr, y)) &&
    (forall y :: y in p.chain && Fits(p.hdr, y, req) && ClassOf(p.hdr, y) == ClassOf(p.hdr, o) ==>
       p.hdr[o].size <= p.hdr[y].size)
  }

  /**
   * Best fit: on a valid pool the search returns a free block of the chain
   * that is large enough and lies on the list of its own class; no fitting
   * free block anywhere in the pool is of a smaller class, and none of the
   * same class is smaller.
   */
  lemma SearchBestFit(p: Pool, req: nat)
    requires Valid(p) && req > 0 && Search(p, req).Some?
    ensures var (l, o) := Search(p, req).value;
      o in p.chain && Fits(p.hdr, o, req) && o in p.lists[l] && l == ClassOf(p.hdr, o) &&
      Level(req) <= l &&
      (forall y :: y in p.chain && Fits(p.hdr, y, req) ==> l <= ClassOf(p.hdr, y)) &&
      (forall y :: y in p.chain && Fits(p.hdr, y, req) && ClassOf(p.hdr, y) == l ==> p.hdr[o].size <= p.hdr[y].size)
  {
    var (l, o) := Search(p, req).value;
    forall y | y in p.chain && Fits(p.hdr, y, req) ensures l <= ClassOf(p.hdr, y) {
      LevelMonotone(req, p.hdr[y].size);
      var ly := ClassOf(p.hdr, y);
      assert y in p.lists[ly];
    }
  }

  /** When the search fails no free block of the pool is large enough. */
  lemma SearchExhausted(p: Pool, req: nat)
    requires Valid(p) && req > 0 && Search(p, req).None?
    ensures forall y :: y in p.chain ==> !Fits(p.hdr, y, req)
  {
    forall y | y in p.chain && Fits(p.hdr, y, req) ensures false {
      LevelMonotone(req, p.hdr[y].size);
    }
  }
}
