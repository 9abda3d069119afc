/** Two places where the source code departs from what it evidently
    intends, each stated twice: once as written, with the input that shows
    the discrepancy, and once corrected, with the intended property. */
module Findings {
  import opened CircularList
  import opened HeapForest
  import opened FibonacciHeap

  /** As written, the rebuild loop of `consolidate` starts its search for
      the minimum at the old head of the root ring (line 303) rather than
      at nil. A candidate whose key is no greater than any new root's key
      is never replaced, so the old head stays the minimum even when the
      walk linked it below another root of equal key. */
  lemma {:induction false} StaleHeadKept(h0: int, L: seq<int>, key: seq<int>)
    requires 0 <= h0 < |key|
    requires forall k :: 0 <= k < |L| ==> 0 <= L[k] < |key|
    requires forall n :: n in L ==> key[h0] <= key[n]
    decreases |L|
    ensures SelectMin(h0, L, key) == h0
  {
    if L != [] {
      assert key[h0] <= key[L[0]];
      StaleHeadKept(h0, L[1..], key);
    }
  }

  /** The input: `Insert(0, 5)`, `Insert(1, 5)`, `Insert(2, 1)`, then
      `DelMin`. Removing 2 leaves the ring 1, 0 headed by 1; the walk puts 1
      in the table, then meets 0 of the same order and, as 5 is not greater
      than 5, links 1 under 0. The table holds 0 alone, and the minimum
      stays 1, which is no longer a root. The next `DelMin` cuts 1 from the
      ring that holds it, which is 0's child ring, so `head` becomes nil
      and `consolidate` dereferences it. */
  lemma StaleHeadExample()
    ensures SelectMin(1, [0], [5, 5, 1]) == 1 && 1 !in [0]
  {
    StaleHeadKept(1, [0], [5, 5, 1]);
  }

  /** Corrected (the rebuild loop of `Rebuild` starts from nil): the choice
      is one of the new roots, with the smallest key among them. */
  lemma CorrectedMinIsRoot(L: seq<int>, key: seq<int>)
    requires L != []
    requires forall k :: 0 <= k < |L| ==> 0 <= L[k] < |key|
    ensures SelectMin(-1, L, key) in L
    ensures forall n :: n in L ==> key[SelectMin(-1, L, key)] <= key[n]
  {
    SelectMinIsMin(-1, L, key);
  }

  /** As written, `Delete` tests `IsEmpty()` (line 259) before it
      decrements `length` (line 265): it consolidates when the count
      before the removal, `n`, is not zero. */
  function DeleteConsolidatesAsWritten(n: int): bool {
    n != 0
  }

  /** Corrected, as in `DelMin` (lines 147-148): the count is decremented
      first. */
  function DeleteConsolidates(n: int): bool {
    n - 1 != 0
  }

  /** The input: a queue holding one index `x`. Once `x` is out of the
      forest the root ring is empty, yet the code as written consolidates,
      and `consolidate` dereferences the nil head. */
  lemma SoleDeleteAsWritten(A: Arena, K: seq<seq<int>>, H: seq<int>, S: set<int>, L: seq<int>, x: int)
    requires S == {x}
    requires Holds(Forest(A, K, H, S - {x}, ToSet(L), {}, -1))
    ensures DeleteConsolidatesAsWritten(|S|) && L == []
  {
    RootsIffNodes(A, K, H, S - {x}, L);
  }

  /** Corrected: `Delete` of `x` from the nodes `S` consolidates exactly
      when roots are left to consolidate. */
  lemma DeleteConsolidatesIff(A: Arena, K: seq<seq<int>>, H: seq<int>, S: set<int>, L: seq<int>, x: int)
    requires x in S
    requires Holds(Forest(A, K, H, S - {x}, ToSet(L), {}, -1))
    ensures DeleteConsolidates(|S|) <==> L != []
  {
    RootsIffNodes(A, K, H, S - {x}, L);
    assert |S - {x}| == |S| - 1;
  }
}
