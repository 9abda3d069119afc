/** The invariant of the priority queue, stated over values: a snapshot of the
    node arena, the `nodes[i] != nil` flags `P`, the abstract contents `C`
    (index to key), the ghost ring orders `K` and `L`, the ghost ranks `H`,
    and the scalar fields `head`, `min` and `length`. Each operation of the
    queue has a step lemma here that carries the invariant across it. */
module QueueInvariant {
  import opened CircularList
  import opened HeapForest

  /** The queue invariant: the contents' nodes form a heap-ordered forest
      whose roots are the ring read from `head`, `min` is a root with the
      smallest key (nil exactly when the queue is empty), and the slots
      and `length` agree with the contents. */
  ghost predicate Inv(A: Arena, P: seq<bool>, C: map<int, int>, K: seq<seq<int>>, H: seq<int>, L: seq<int>, head: int, min: int, length: int) {
    && Sized(A, K, H) && Tabled(A.key, P, C, length) && -1 <= min < |A.key|
    && Forest(A, K, H, C.Keys, ToSet(L), {}, -1)
    && List(A.next, A.prev, L, head)
    && (L == [] <==> length == 0)
    && (L == [] ==> min == -1)
    && (L != [] ==> min in L && forall i :: i in C ==> A.key[min] <= A.key[i])
  }

  /** The slots: `nodes[i] != nil` exactly for the indices `i` of the
      contents, whose keys are the nodes' keys, and `length` counts them. */
  ghost predicate Tabled(key: seq<int>, P: seq<bool>, C: map<int, int>, length: int) {
    && |P| == |key|
    && (forall i :: i in C ==> 0 <= i < |P|)
    && (forall i :: 0 <= i < |P| ==> (P[i] <==> i in C))
    && (forall i :: i in C ==> C[i] == key[i])
    && length == |C|
  }

  /** Storing a new index `i` with key `k` in its slot. */
  lemma TabledInsert(key: seq<int>, key': seq<int>, P: seq<bool>, C: map<int, int>, n: int, i: int, k: int)
    requires Tabled(key, P, C, n) && 0 <= i < |key| && i !in C && key' == key[i := k]
    ensures Tabled(key', P[i := true], C[i := k], n + 1)
  {
    assert |C[i := k]| == |C| + 1;
  }

  /** Freeing the slot of the index `x`. */
  lemma TabledRemove(key: seq<int>, P: seq<bool>, C: map<int, int>, n: int, x: int)
    requires Tabled(key, P, C, n) && x in C
    ensures Tabled(key, P[x := false], C - {x}, n - 1)
  {
    assert |C - {x}| == |C| - 1;
  }

  /** Storing the new key `k` of the index `i`. */
  lemma TabledRekey(key: seq<int>, key': seq<int>, P: seq<bool>, C: map<int, int>, n: int, i: int, k: int)
    requires Tabled(key, P, C, n) && i in C && key' == key[i := k]
    ensures Tabled(key', P, C[i := k], n)
  {
    assert C[i := k].Keys == C.Keys;
  }

  /** The empty queue. */
  lemma EmptyInv(A: Arena, P: seq<bool>, C: map<int, int>, K: seq<seq<int>>, H: seq<int>, L: seq<int>, head: int, min: int, length: int)
    requires Sized(A, K, H) && |P| == |A.key|
    requires forall i :: 0 <= i < |P| ==> !P[i]
    requires C == map[] && L == [] && head == -1 && min == -1 && length == 0
    ensures Inv(A, P, C, K, H, L, head, min, length)
  {
    EmptyForest(A, K, H);
    assert ToSet([]) == {};
  }

  /** `Insert` of a new index `i` with key `k`: the new node is the head of
      the root ring, and it is the minimum when the queue was empty or its
      key is smaller than the old minimum's. */
  lemma InsertInv(A: Arena, A': Arena, P: seq<bool>, P': seq<bool>, C: map<int, int>, C': map<int, int>,
                  K: seq<seq<int>>, K': seq<seq<int>>, H: seq<int>, H': seq<int>, L: seq<int>, L': seq<int>,
                  head: int, head': int, min: int, min': int, length: int, length': int, i: int, k: int)
    requires Inv(A, P, C, K, H, L, head, min, length)
    requires 0 <= i < |A.key| && i !in C
    requires P' == P[i := true]
    requires A'.key == A.key[i := k] && A'.order == A.order[i := 0]
    requires A'.parent == A.parent[i := -1] && A'.child == A.child[i := -1]
    requires |A'.next| == |A.next| && |A'.prev| == |A.prev|
    requires Ring(A'.next, A'.prev, [i] + L)
    requires forall j :: 0 <= j < |A.next| && j != i && j !in Ends(L) ==> A'.next[j] == A.next[j] && A'.prev[j] == A.prev[j]
    requires min' == if min == -1 || A.key[min] > k then i else min
    requires C' == C[i := k] && K' == K[i := []] && H' == H[i := 0] && L' == [i] + L
    requires head' == i && length' == length + 1
    ensures Inv(A', P', C', K', H', L', head', min', length')
  {
    InsertStep(A, A', K, H, C.Keys, L, i, k);
    TabledInsert(A.key, A'.key, P, C, length, i, k);
    assert C[i := k].Keys == C.Keys + {i};
    InsertMin(A.key, A'.key, C, min, min', i, k);
  }

  /** The minimum after `Insert`: the new key when it is smaller than the
      old minimum's (or the queue was empty), the old minimum otherwise. */
  lemma InsertMin(key: seq<int>, key': seq<int>, C: map<int, int>, min: int, min': int, i: int, k: int)
    requires 0 <= i < |key| && key' == key[i := k] && -1 <= min < |key|
    requires forall j :: j in C ==> 0 <= j < |key|
    requires i !in C && (min != -1 ==> min in C && forall j :: j in C ==> key[min] <= key[j])
    requires min == -1 ==> C == map[]
    requires min' == if min == -1 || key[min] > k then i else min
    ensures 0 <= min' < |key'|
    ensures forall j :: j in C[i := k] ==> key'[min'] <= key'[j]
  {
    forall j | j in C[i := k] ensures key'[min'] <= key'[j] {
      if j != i {
        assert key'[j] == key[j];
      }
    }
  }

  /** Removing the root `x` (`DelMin` and `Delete`): the slot is freed, the
      count drops by one, and either the queue is now empty with an empty
      root ring and no minimum, or the root ring was consolidated and holds
      a minimum of the remaining keys. */
  lemma RemoveInv(A0: Arena, A: Arena, P0: seq<bool>, P: seq<bool>, C0: map<int, int>, C: map<int, int>,
                  K0: seq<seq<int>>, K: seq<seq<int>>, H0: seq<int>, H: seq<int>, L0: seq<int>, L: seq<int>,
                  h0: int, h: int, m0: int, m: int, n0: int, n: int, x: int)
    requires Inv(A0, P0, C0, K0, H0, L0, h0, m0, n0)
    requires x in C0 && A.key == A0.key
    requires P == P0[x := false] && C == C0 - {x} && n == n0 - 1
    requires Holds(Settled(A, K, H, C.Keys, L, h, m))
    ensures Inv(A, P, C, K, H, L, h, m, n)
  {
    TabledRemove(A0.key, P0, C0, n0, x);
    if C == map[] {
      RootsIffNodes(A, K, H, C.Keys, L);
    } else {
      assert |C| != 0;
    }
  }

  /** `DecreaseKey` of the index `i` to `k` (and `Delete`'s `cut`, which is
      the case `k == C[i]`): the key is lowered, `i` becomes the minimum when
      its new key is smaller than the minimum's, and either nothing moved
      (`i` is a root or its parent's key is no greater than `k`) or `i` and
      the cascade above it joined the root ring in front of the old roots. */
  lemma DecreaseInv(A: Arena, A': Arena, P: seq<bool>, C: map<int, int>, K: seq<seq<int>>, K': seq<seq<int>>, H: seq<int>,
                    L: seq<int>, L': seq<int>, h: int, h': int, m: int, m': int, n: int, i: int, k: int)
    requires Inv(A, P, C, K, H, L, h, m, n)
    requires i in C && k <= C[i]
    requires A'.key == A.key[i := k] && |A'.key| == |A.key|
    requires m' == if A.key[m] > k then i else m
    requires Holds(Forest(A', K', H, C.Keys, ToSet(L'), {}, -1)) && Holds(List(A'.next, A'.prev, L', h'))
    requires || (L' == L && A'.parent == A.parent && (A.parent[i] == -1 || (0 <= A.parent[i] < |A.key| && A.key[A.parent[i]] <= k)))
             || (i in L' && forall r :: r in L ==> r in L')
    ensures Inv(A', P, C[i := k], K', H, L', h', m', n)
  {
    TabledRekey(A.key, A'.key, P, C, n, i, k);
    assert C[i := k].Keys == C.Keys;
    assert L != [];
    if m' == i && L' == L && A'.parent == A.parent {
      assert Linked(A, K, C.Keys, ToSet(L), i);
    }
    forall j | j in C[i := k] ensures A'.key[m'] <= A'.key[j] {
      if j != i {
        assert A'.key[j] == A.key[j];
      }
    }
  }
}

