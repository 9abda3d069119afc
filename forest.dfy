/** The forest of heap-ordered trees that the queue keeps, stated over a
    snapshot of its node arena. Node `x` is the node of external index `x`;
    -1 is the nil handle. The ghost sequence `K[x]` lists the children of `x`
    in the order of their sibling ring, starting at `child[x]`, and the ghost
    rank `H[x]` is larger than the rank of every child of `x`, so that walking
    up through parents always ends at a root. */
module HeapForest {
  import opened CircularList

  /** The node fields of every slot of the arena. */
  datatype Arena = Arena(
    key: seq<int>,
    order: seq<int>,
    parent: seq<int>,
    child: seq<int>,
    prev: seq<int>,
    next: seq<int>)

  ghost predicate Sized(A: Arena, K: seq<seq<int>>, H: seq<int>) {
    var n := |A.key|;
    |A.order| == n && |A.parent| == n && |A.child| == n && |A.prev| == n && |A.next| == n &&
    |K| == n && |H| == n
  }

  /** `x` hangs where its parent field says: a root is in `R`, any other node
      is on its parent's child list. */
  ghost predicate Linked(A: Arena, K: seq<seq<int>>, S: set<int>, R: set<int>, x: int)
    requires 0 <= x < |A.parent|
  {
    if A.parent[x] == -1 then x in R
    else 0 <= A.parent[x] < |K| && A.parent[x] in S && x in K[A.parent[x]]
  }

  /** The child list of `x` is a well-formed ring headed by `child[x]`, its
      length is `order[x]`, and each child points back to `x`, has a smaller
      rank and (except for the node `bad`) a key no smaller than `x`'s. */
  ghost predicate NodeOk(A: Arena, K: seq<seq<int>>, H: seq<int>, S: set<int>, x: int, bad: int)
    requires Sized(A, K, H)
    requires 0 <= x < |A.key|
  {
    && List(A.next, A.prev, K[x], A.child[x])
    && A.order[x] == |K[x]|
    && forall c :: c in K[x] ==>
         && c in S && 0 <= c < |A.key|
         && A.parent[c] == x
         && H[c] < H[x]
         && (c != bad ==> A.key[x] <= A.key[c])
  }

  /** The nodes `S` form a forest whose roots are `R`. The nodes of `E` are
      exempt from `Linked` (children whose parent is being removed), and the
      edge into `bad` is exempt from heap order (a key being decreased). */
  ghost predicate Forest(A: Arena, K: seq<seq<int>>, H: seq<int>, S: set<int>, R: set<int>, E: set<int>, bad: int) {
    && Sized(A, K, H)
    && (forall x :: x in S ==> 0 <= x < |A.key|)
    && R <= S && E <= S
    && (forall r :: r in R ==> A.parent[r] == -1)
    && (forall x {:trigger Linked(A, K, S, R, x)} :: x in S && x !in E ==> Linked(A, K, S, R, x))
    && (forall x {:trigger NodeOk(A, K, H, S, x, bad)} :: x in S ==> NodeOk(A, K, H, S, x, bad))
  }

  /** With no nodes there is nothing to check. */
  lemma EmptyForest(A: Arena, K: seq<seq<int>>, H: seq<int>)
    requires Sized(A, K, H)
    ensures Forest(A, K, H, {}, {}, {}, -1)
  {
  }

  /** A node of the forest that is a root or outside it is on no child list. */
  lemma NotAChild(A: Arena, K: seq<seq<int>>, H: seq<int>, S: set<int>, R: set<int>, E: set<int>, bad: int, c: int, y: int)
    requires Forest(A, K, H, S, R, E, bad)
    requires y in S
    requires c !in S || A.parent[c] != y
    ensures c !in K[y]
  {
    assert NodeOk(A, K, H, S, y, bad);
  }

  /** The child list of `y` survives relinking of nodes that are not
      children of `y`. */
  lemma OtherList(A: Arena, A': Arena, K: seq<seq<int>>, H: seq<int>, S: set<int>, R: set<int>, E: set<int>, bad: int, y: int, C: set<int>)
    requires Forest(A, K, H, S, R, E, bad)
    requires y in S
    requires |A'.next| == |A.next| && |A'.prev| == |A.prev|
    requires forall j :: 0 <= j < |A.next| && j !in C ==> A'.next[j] == A.next[j] && A'.prev[j] == A.prev[j]
    requires forall c :: c in C ==> c !in S || A.parent[c] != y
    ensures List(A'.next, A'.prev, K[y], A.child[y])
  {
    assert NodeOk(A, K, H, S, y, bad);
    forall k | 0 <= k < |K[y]| ensures A'.next[K[y][k]] == A.next[K[y][k]] && A'.prev[K[y][k]] == A.prev[K[y][k]] {
      assert K[y][k] in K[y];
    }
    ListFrame(A.next, A.prev, A'.next, A'.prev, K[y], A.child[y]);
  }

  /** Relinking next/prev pointers of roots (or of nodes outside the forest)
      leaves the forest intact. */
  lemma FrameLinks(A: Arena, A': Arena, K: seq<seq<int>>, H: seq<int>, S: set<int>, R: set<int>, E: set<int>, bad: int, C: set<int>)
    requires Forest(A, K, H, S, R, E, bad)
    requires A'.key == A.key && A'.order == A.order && A'.parent == A.parent && A'.child == A.child
    requires |A'.next| == |A.next| && |A'.prev| == |A.prev|
    requires forall j :: 0 <= j < |A.next| && j !in C ==> A'.next[j] == A.next[j] && A'.prev[j] == A.prev[j]
    requires forall c :: c in C ==> c !in S || A.parent[c] == -1
    ensures Forest(A', K, H, S, R, E, bad)
  {
    forall x | x in S ensures NodeOk(A', K, H, S, x, bad) {
      assert NodeOk(A, K, H, S, x, bad);
      forall k | 0 <= k < |K[x]| ensures A'.next[K[x][k]] == A.next[K[x][k]] && A'.prev[K[x][k]] == A.prev[K[x][k]] {
        assert K[x][k] in K[x];
      }
      ListFrame(A.next, A.prev, A'.next, A'.prev, K[x], A.child[x]);
    }
    forall x | x in S && x !in E ensures Linked(A', K, S, R, x) {
      assert Linked(A, K, S, R, x);
    }
  }

  /** A fresh root `i` with no children joins the forest. */
  lemma AddRoot(A: Arena, A': Arena, K: seq<seq<int>>, K': seq<seq<int>>, H: seq<int>, H': seq<int>, S: set<int>, R: set<int>, i: int)
    requires Forest(A, K, H, S, R, {}, -1)
    requires 0 <= i < |A.key| && i !in S
    requires Sized(A', K', H') && |A'.key| == |A.key|
    requires forall j :: 0 <= j < |A.key| && j != i ==>
      A'.key[j] == A.key[j] && A'.order[j] == A.order[j] && A'.parent[j] == A.parent[j] &&
      A'.child[j] == A.child[j] && A'.prev[j] == A.prev[j] && A'.next[j] == A.next[j] &&
      K'[j] == K[j] && H'[j] == H[j]
    requires A'.order[i] == 0 && A'.parent[i] == -1 && A'.child[i] == -1 && K'[i] == []
    ensures Forest(A', K', H', S + {i}, R + {i}, {}, -1)
  {
    var S' := S + {i};
    forall x | x in S ensures NodeOk(A', K', H', S', x, -1) {
      assert NodeOk(A, K, H, S, x, -1);
      forall k | 0 <= k < |K[x]| ensures A'.next[K[x][k]] == A.next[K[x][k]] && A'.prev[K[x][k]] == A.prev[K[x][k]] {
        assert K[x][k] in K[x];
      }
      ListFrame(A.next, A.prev, A'.next, A'.prev, K[x], A.child[x]);
    }
    assert NodeOk(A', K', H', S', i, -1);
    forall x | x in S' ensures Linked(A', K', S', R + {i}, x) {
      if x != i {
        assert Linked(A, K, S, R, x);
      }
    }
  }

  function Max(a: int, b: int): int {
    if a < b then b else a
  }

  /** `link(a, b)`: root `a` (whose key is no smaller) becomes a child of
      root `b`, spliced in at the head of `b`'s child list, and `b`'s order
      grows by one. */
  lemma LinkUnder(A: Arena, A': Arena, K: seq<seq<int>>, H: seq<int>, S: set<int>, R: set<int>, a: int, b: int)
    requires Forest(A, K, H, S, R, {}, -1)
    requires a in R && b in R && a != b
    requires A.key[b] <= A.key[a]
    requires A'.key == A.key
    requires A'.parent == A.parent[a := b]
    requires A'.order == A.order[b := A.order[b] + 1]
    requires A'.child == A.child[b := a]
    requires |A'.next| == |A.next| && |A'.prev| == |A.prev|
    requires Ring(A'.next, A'.prev, [a] + K[b])
    requires forall j :: 0 <= j < |A.next| && j != a && j !in Ends(K[b]) ==> A'.next[j] == A.next[j] && A'.prev[j] == A.prev[j]
    ensures Forest(A', K[b := [a] + K[b]], H[b := Max(H[b], H[a] + 1)], S, R - {a}, {}, -1)
  {
    var K' := K[b := [a] + K[b]];
    var H' := H[b := Max(H[b], H[a] + 1)];
    var R' := R - {a};
    assert NodeOk(A, K, H, S, b, -1);
    forall x | x in S ensures NodeOk(A', K', H', S, x, -1) {
      assert NodeOk(A, K, H, S, x, -1);
      if x != b {
        EndsIn(K[b]);
        OtherList(A, A', K, H, S, R, {}, -1, x, {a} + Ends(K[b]));
      } else {
        forall c | c in K'[b] ensures c in S && 0 <= c < |A.key| && A'.parent[c] == b && H'[c] < H'[b] && A'.key[b] <= A'.key[c] {
          if c != a {
            assert c in K[b];
          }
        }
      }
    }
    forall x | x in S ensures Linked(A', K', S, R', x) {
      assert Linked(A, K, S, R, x);
      if x != a && A.parent[x] != -1 {
        assert x in K'[A.parent[x]];
      }
    }
  }

  /** The fields a `cut` of `x` from its parent `p` leaves behind. */
  ghost predicate DetachedState(A: Arena, A': Arena, K: seq<seq<int>>, x: int, p: int, pos: nat, nh: int)
    requires 0 <= x < |A.parent| && 0 <= p < |A.order| && p < |A.child| && p < |K| && pos < |K[p]|
    requires x < |A.prev| && x < |A.next| && |A.prev| == |A.next|
  {
    && A'.key == A.key
    && A'.parent == A.parent[x := -1]
    && A'.order == A.order[p := A.order[p] - 1]
    && A'.child == A.child[p := nh]
    && |A'.next| == |A.next| && |A'.prev| == |A.prev|
    && List(A'.next, A'.prev, Without(K[p], pos), nh)
    && (forall j :: 0 <= j < |A.next| && j != x && j != A.prev[x] && j != A.next[x] ==> A'.next[j] == A.next[j] && A'.prev[j] == A.prev[j])
  }

  lemma DetachOther(A: Arena, A': Arena, K: seq<seq<int>>, H: seq<int>, S: set<int>, R: set<int>, bad: int, x: int, p: int, pos: nat, nh: int, y: int)
    requires Forest(A, K, H, S, R, {}, bad)
    requires x in S && p in S && A.parent[x] == p
    requires pos < |K[p]| && K[p][pos] == x
    requires DetachedState(A, A', K, x, p, pos, nh)
    requires y in S && y != p
    ensures NodeOk(A', K[p := Without(K[p], pos)], H, S, y, bad)
  {
    assert NodeOk(A, K, H, S, p, bad);
    assert NodeOk(A, K, H, S, y, bad);
    RingNeighbours(A.next, A.prev, K[p], pos);
    OtherList(A, A', K, H, S, R, {}, bad, y, {x, A.prev[x], A.next[x]});
  }

  lemma DetachParent(A: Arena, A': Arena, K: seq<seq<int>>, H: seq<int>, S: set<int>, R: set<int>, bad: int, x: int, p: int, pos: nat, nh: int)
    requires Forest(A, K, H, S, R, {}, bad)
    requires x in S && p in S && A.parent[x] == p
    requires pos < |K[p]| && K[p][pos] == x
    requires DetachedState(A, A', K, x, p, pos, nh)
    ensures NodeOk(A', K[p := Without(K[p], pos)], H, S, p, bad)
  {
    assert NodeOk(A, K, H, S, p, bad);
    WithoutMembers(K[p], pos);
  }

  /** One step of `cut`: node `x` leaves the child list of its parent `p`
      (at position `pos`) and becomes a root; `p`'s order drops by one. */
  lemma Detach(A: Arena, A': Arena, K: seq<seq<int>>, H: seq<int>, S: set<int>, R: set<int>, bad: int, x: int, p: int, pos: nat, nh: int)
    requires Forest(A, K, H, S, R, {}, bad)
    requires x in S && A.parent[x] == p && p != -1 && Linked(A, K, S, R, x)
    requires pos < |K[p]| && K[p][pos] == x
    requires DetachedState(A, A', K, x, p, pos, nh)
    ensures p in S && x !in R
    ensures Forest(A', K[p := Without(K[p], pos)], H, S, R + {x}, {}, bad)
  {
    assert NodeOk(A, K, H, S, p, bad);
    var K' := K[p := Without(K[p], pos)];
    var R' := R + {x};
    forall y | y in S ensures NodeOk(A', K', H, S, y, bad) {
      if y == p {
        DetachParent(A, A', K, H, S, R, bad, x, p, pos, nh);
      } else {
        DetachOther(A, A', K, H, S, R, bad, x, p, pos, nh, y);
      }
    }
    WithoutMembers(K[p], pos);
    forall z | z in S ensures Linked(A', K', S, R', z) {
      assert Linked(A, K, S, R, z);
    }
  }

  /** The root `x` leaves the forest; its children are left exempt until their
      parent fields are cleared. */
  lemma RemoveRoot(A: Arena, K: seq<seq<int>>, H: seq<int>, S: set<int>, R: set<int>, x: int)
    requires Forest(A, K, H, S, R, {}, -1)
    requires x in R
    ensures Forest(A, K, H, S - {x}, R - {x}, ToSet(K[x]), -1)
    ensures forall c :: c in K[x] ==> 0 <= c < |A.parent| && A.parent[c] == x
  {
    var S' := S - {x};
    var R' := R - {x};
    var E := ToSet(K[x]);
    assert NodeOk(A, K, H, S, x, -1);
    forall y | y in S' ensures NodeOk(A, K, H, S', y, -1) {
      assert NodeOk(A, K, H, S, y, -1);
    }
    forall z | z in S' && z !in E ensures Linked(A, K, S', R', z) {
      assert Linked(A, K, S, R, z);
    }
  }

  /** Lowering the key of `i` can only break heap order on the edge into `i`. */
  lemma Decrease(A: Arena, A': Arena, K: seq<seq<int>>, H: seq<int>, S: set<int>, R: set<int>, i: int, k: int)
    requires Forest(A, K, H, S, R, {}, -1)
    requires i in S && k <= A.key[i]
    requires A' == A.(key := A.key[i := k])
    ensures Forest(A', K, H, S, R, {}, i)
    ensures A.parent[i] == -1 || (0 <= A.parent[i] < |A.key| && A.key[A.parent[i]] <= k) ==> Forest(A', K, H, S, R, {}, -1)
  {
    forall y | y in S ensures NodeOk(A', K, H, S, y, i) {
      assert NodeOk(A, K, H, S, y, -1);
    }
    forall z | z in S ensures Linked(A', K, S, R, z) {
      assert Linked(A, K, S, R, z);
    }
    if A.parent[i] == -1 || A.key[A.parent[i]] <= k {
      forall y | y in S ensures NodeOk(A', K, H, S, y, -1) {
        assert NodeOk(A, K, H, S, y, -1);
        assert NodeOk(A', K, H, S, y, i);
      }
    }
  }

  /** Once the node whose key was lowered is a root, heap order holds again. */
  lemma Healed(A: Arena, K: seq<seq<int>>, H: seq<int>, S: set<int>, R: set<int>, bad: int)
    requires Forest(A, K, H, S, R, {}, bad)
    requires 0 <= bad < |A.parent| && A.parent[bad] == -1
    ensures Forest(A, K, H, S, R, {}, -1)
  {
    forall y | y in S ensures NodeOk(A, K, H, S, y, -1) {
      assert NodeOk(A, K, H, S, y, bad);
    }
  }

  function SeqMax(s: seq<int>): (m: int)
    requires |s| > 0
    ensures forall i :: 0 <= i < |s| ==> s[i] <= m
    ensures exists i :: 0 <= i < |s| && s[i] == m
  {
    if |s| == 1 then s[0]
    else
      var m' := SeqMax(s[1..]);
      assert forall i :: 1 <= i < |s| ==> s[i] == s[1..][i - 1];
      if s[0] < m' then m' else s[0]
  }

  /** Walking up from any node through its parents reaches a root whose key
      is no larger. */
  lemma {:induction false} RootAbove(A: Arena, K: seq<seq<int>>, H: seq<int>, S: set<int>, R: set<int>, x: int) returns (r: int)
    requires Forest(A, K, H, S, R, {}, -1)
    requires x in S
    ensures r in R && A.key[r] <= A.key[x]
    decreases SeqMax(H) - H[x]
  {
    assert Linked(A, K, S, R, x);
    if A.parent[x] == -1 {
      r := x;
    } else {
      var p := A.parent[x];
      assert NodeOk(A, K, H, S, p, -1);
      r := RootAbove(A, K, H, S, R, p);
    }
  }

  /** A key no larger than every root's is no larger than every key. */
  lemma MinOfRootsIsMin(A: Arena, K: seq<seq<int>>, H: seq<int>, S: set<int>, R: set<int>, m: int)
    requires Forest(A, K, H, S, R, {}, -1)
    requires forall r :: r in R ==> m <= A.key[r]
    ensures forall x :: x in S ==> m <= A.key[x]
  {
    forall x | x in S ensures m <= A.key[x] {
      var r := RootAbove(A, K, H, S, R, x);
    }
  }

  lemma Pick(S: set<int>) returns (x: int)
    requires S != {}
    ensures x in S
  {
    if forall y :: y !in S {
      assert false;
    }
    x :| x in S;
  }

  /** A non-empty forest has a root. */
  lemma NonEmptyHasRoot(A: Arena, K: seq<seq<int>>, H: seq<int>, S: set<int>, R: set<int>)
    requires Forest(A, K, H, S, R, {}, -1)
    ensures S != {} <==> R != {}
  {
    if S != {} {
      var x := Pick(S);
      var r := RootAbove(A, K, H, S, R, x);
    }
  }

  /** A fresh root `i` spliced in front of the root ring `L` gives a forest
      with one more node and the root ring `[i] + L`. */
  lemma InsertStep(A: Arena, A': Arena, K: seq<seq<int>>, H: seq<int>, S: set<int>, L: seq<int>, i: int, k: int)
    requires Forest(A, K, H, S, ToSet(L), {}, -1)
    requires 0 <= i < |A.key| && i !in S
    requires A'.key == A.key[i := k] && A'.order == A.order[i := 0]
    requires A'.parent == A.parent[i := -1] && A'.child == A.child[i := -1]
    requires |A'.next| == |A.next| && |A'.prev| == |A.prev|
    requires Ring(A'.next, A'.prev, [i] + L)
    requires forall j :: 0 <= j < |A.next| && j != i && j !in Ends(L) ==> A'.next[j] == A.next[j] && A'.prev[j] == A.prev[j]
    ensures Forest(A', K[i := []], H[i := 0], S + {i}, ToSet([i] + L), {}, -1)
  {
    var A1 := A.(key := A'.key, order := A'.order, parent := A'.parent, child := A'.child);
    AddRoot(A, A1, K, K[i := []], H, H[i := 0], S, ToSet(L), i);
    EndsIn(L);
    FrameLinks(A1, A', K[i := []], H[i := 0], S + {i}, ToSet(L) + {i}, {}, -1, {i} + Ends(L));
    assert ToSet([i] + L) == ToSet(L) + {i};
  }

  /** The order table of `consolidate`: `table[o]` is the one root of order
      `o` seen so far, and `T` is the set of those roots. */
  ghost predicate TableOk(table: map<int, int>, T: set<int>, order: seq<int>) {
    && (forall o :: o in table ==> table[o] in T && 0 <= table[o] < |order| && order[table[o]] == o)
    && (forall v :: v in T ==> 0 <= v < |order| && order[v] in table && table[order[v]] == v)
  }

  /** During the rebuild of `consolidate`, the order keys still to be
      visited are `keys`, and the roots already put back are `D`. */
  ghost predicate Drained(table: map<int, int>, keys: set<int>, D: set<int>, T: set<int>) {
    && keys <= table.Keys && D <= T
    && forall o :: o in table ==> (o !in keys <==> table[o] in D)
  }

  /** The state of the rebuild of `consolidate`: `B` is the new root ring,
      headed by `h`, made of the roots `D` already taken from the table; `m`
      is a smallest of them (nil while there is none); the links of every
      other node are as they were in `A0`. */
  ghost predicate RebuildInv(A0: Arena, A: Arena, table: map<int, int>, keys: set<int>, D: set<int>, T: set<int>,
                             B: seq<int>, h: int, m: int) {
    && Drained(table, keys, D, T)
    && List(A.next, A.prev, B, h) && ToSet(B) == D
    && (m == -1 <==> D == {})
    && (m != -1 ==> m in D && 0 <= m < |A.key| && forall v :: v in D ==> 0 <= v < |A.key| && A.key[m] <= A.key[v])
    && LinksKept(A0, A, D)
  }

  /** Splicing the root of order `o` into the new ring keeps `RebuildInv`. */
  lemma RebuildStepInv(A0: Arena, A: Arena, A': Arena, table: map<int, int>, keys: set<int>, D: set<int>, T: set<int>,
                       B: seq<int>, h: int, m: int, order: seq<int>, o: int, m': int)
    requires RebuildInv(A0, A, table, keys, D, T, B, h, m)
    requires TableOk(table, T, order) && o in keys
    requires A'.key == A.key && |A'.next| == |A.next| && |A'.prev| == |A.prev| && |A.prev| == |A.next|
    requires 0 <= table[o] < |A.key|
    requires Ring(A'.next, A'.prev, [table[o]] + B)
    requires forall j :: 0 <= j < |A.next| && j != table[o] && j !in Ends(B) ==> A'.next[j] == A.next[j] && A'.prev[j] == A.prev[j]
    requires m' == if m == -1 || A.key[m] > A.key[table[o]] then table[o] else m
    ensures RebuildInv(A0, A', table, keys - {o}, D + {table[o]}, T, [table[o]] + B, table[o], m')
  {
    var n := table[o];
    assert ToSet([n] + B) == D + {n};
    forall o2 | o2 in table && o2 != o ensures table[o2] != n {
      assert order[table[o2]] == o2;
    }
    EndsIn(B);
  }

  /** Once every order key is visited, every root of the table is back. */
  lemma DrainedAll(table: map<int, int>, D: set<int>, T: set<int>, order: seq<int>)
    requires Drained(table, {}, D, T) && TableOk(table, T, order)
    ensures D == T
  {
    forall v | v in T ensures v in D {
      var o := order[v];
      assert o in table && table[o] == v;
    }
  }

  /** The links of every node outside `D` are as in `A0`. */
  ghost predicate LinksKept(A0: Arena, A: Arena, D: set<int>) {
    && |A.next| == |A0.next| && |A.prev| == |A0.prev|
    && forall j :: 0 <= j < |A0.next| && j < |A0.prev| && j !in D ==> A.next[j] == A0.next[j] && A.prev[j] == A0.prev[j]
  }

  /** Roots held in the table have pairwise distinct orders. */
  lemma TableOrdersDistinct(table: map<int, int>, T: set<int>, order: seq<int>, a: int, b: int)
    requires TableOk(table, T, order)
    requires a in T && b in T && a != b
    ensures order[a] != order[b]
  {
  }

  /** Taking the entry of order `o` (the root `z`) out of the table, while
      the order of a root `b` outside what is left grows by one. */
  lemma TableRemove(table: map<int, int>, T: set<int>, order: seq<int>, order': seq<int>, o: int, z: int, b: int)
    requires TableOk(table, T, order)
    requires o in table && table[o] == z
    requires 0 <= b < |order| && b !in T - {z}
    requires order' == order[b := order[b] + 1]
    ensures TableOk(table - {o}, T - {z}, order')
  {
  }

  /** The survivor `x` takes the free slot of its order. */
  lemma TableAdd(table: map<int, int>, T: set<int>, order: seq<int>, x: int)
    requires TableOk(table, T, order)
    requires 0 <= x < |order| && order[x] !in table
    ensures TableOk(table[order[x] := x], T + {x}, order)
  {
  }

  /** Every root of `A0` outside `X` is still a root of `A`, with the same
      sibling links. */
  ghost predicate RootsKept(A0: Arena, A: Arena, X: set<int>) {
    && |A.parent| == |A0.parent| && |A.next| == |A0.next| && |A.prev| == |A0.prev|
    && |A0.next| == |A0.parent| && |A0.prev| == |A0.parent|
    && forall j :: 0 <= j < |A0.parent| && j !in X && A0.parent[j] == -1 ==>
         A.parent[j] == -1 && A.next[j] == A0.next[j] && A.prev[j] == A0.prev[j]
  }

  lemma RootsKeptTrans(A0: Arena, A1: Arena, A2: Arena, X: set<int>, Y: set<int>, Z: set<int>)
    requires RootsKept(A0, A1, X) && RootsKept(A1, A2, Y) && X <= Z && Y <= Z
    ensures RootsKept(A0, A2, Z)
  {
  }

  /** The root set `R` of the inner loop of `consolidate` is the table's
      roots `T`, the current tree `x` and the unvisited roots `U`. */
  ghost predicate Parts(R: set<int>, T: set<int>, x: int, U: set<int>) {
    R == T + {x} + U && x !in T && x !in U && T !! U
  }

  /** One link: `loser` leaves the roots, and `x'` carries on. */
  lemma PartsStep(R: set<int>, T: set<int>, x: int, U: set<int>, T': set<int>, x': int, loser: int)
    requires Parts(R, T, x, U)
    requires loser in T + {x} && x' != loser && T' + {x'} == T + {x} - {loser} && x' !in T'
    ensures Parts(R - {loser}, T', x', U)
    ensures T' + {x'} <= T + {x}
  {
  }

  lemma RootsKeptMore(A0: Arena, A: Arena, X: set<int>, Y: set<int>)
    requires RootsKept(A0, A, X) && X <= Y
    ensures RootsKept(A0, A, Y)
  {
  }

  /** The table after `x` and the table's root `z` of the same order `o`
      are linked, `a` under `b`: `z` leaves the table and `b` carries on. */
  lemma LinkBookkeeping(table: map<int, int>, T: set<int>, order: seq<int>, order': seq<int>, x: int, z: int, a: int, b: int)
    requires TableOk(table, T, order) && x !in T && 0 <= x < |order|
    requires order[x] in table && z == table[order[x]]
    requires (a == x && b == z) || (a == z && b == x)
    requires 0 <= b < |order|
    requires order' == order[b := order[b] + 1]
    ensures TableOk(table - {order[x]}, T - {z}, order')
    ensures a in T + {x} && b != a && (T - {z}) + {b} == T + {x} - {a} && b !in T - {z}
    ensures |T - {z}| < |T|
  {
    TableRemove(table, T, order, order', order[x], z, b);
  }

  /** `ix` gives each element of `L` its position, and nothing else has one
      (so `L` has no repetitions). */
  ghost predicate Indexed(L: seq<int>, ix: map<int, int>) {
    && (forall k {:trigger L[k]} :: 0 <= k < |L| ==> L[k] in ix && ix[L[k]] == k)
    && (forall v {:trigger ix[v]} :: v in ix ==> 0 <= ix[v] < |L| && L[ix[v]] == v)
  }

  /** The original root ring `L` of a walk, stated so that it is cheap to
      carry along: every root has its position in `ix` and no parent, and
      `next` leads from each root to the following one. */
  ghost predicate Tour(A0: Arena, L: seq<int>, ix: map<int, int>) {
    && |L| > 0 && Indexed(L, ix)
    && (forall k {:trigger L[k]} :: 0 <= k < |L| ==>
          0 <= L[k] < |A0.next| && L[k] < |A0.parent| && A0.parent[L[k]] == -1)
    && (forall k {:trigger A0.next[L[k]]} :: 0 <= k < |L| ==>
          A0.next[L[k]] == if k + 1 < |L| then L[k + 1] else L[0])
  }

  /** The positions of the elements of a list without repetitions. */
  ghost function Positions(L: seq<int>): (ix: map<int, int>)
    requires Distinct(L)
    ensures Indexed(L, ix) && ix.Keys == ToSet(L)
  {
    map k | 0 <= k < |L| :: L[k] := k
  }

  /** The root ring of a forest is a tour. */
  lemma TourOf(A0: Arena, K0: seq<seq<int>>, H0: seq<int>, S: set<int>, L: seq<int>)
    requires Forest(A0, K0, H0, S, ToSet(L), {}, -1) && Ring(A0.next, A0.prev, L)
    ensures Tour(A0, L, Positions(L))
  {
    forall k | 0 <= k < |L| ensures A0.parent[L[k]] == -1 {
      assert L[k] in ToSet(L);
    }
    forall k | 0 <= k < |L| ensures A0.next[L[k]] == if k + 1 < |L| then L[k + 1] else L[0] {
      if k + 1 == |L| {
        assert L[k] == Last(L);
      }
    }
  }

  /** The visited roots `V` and the unvisited roots `U` of the walk of
      `consolidate` over the original root ring, before position `pos`. */
  ghost predicate WalkSets(ix: map<int, int>, pos: int, V: set<int>, U: set<int>) {
    && (forall v {:trigger v in V} :: v in V <==> v in ix && ix[v] < pos)
    && (forall v {:trigger v in U} :: v in U <==> v in ix && pos <= ix[v])
  }

  /** Visiting the root `L[pos]`: its successor link is still the original
      one, and it splits the current roots into the table's, itself and the
      unvisited ones `U - {L[pos]}`. */
  lemma WalkEnter(A0: Arena, A: Arena, L: seq<int>, ix: map<int, int>, pos: nat, T: set<int>, V: set<int>, U: set<int>)
    requires Tour(A0, L, ix)
    requires pos < |L| && WalkSets(ix, pos, V, U) && T <= V
    requires RootsKept(A0, A, V)
    ensures 0 <= L[pos] < |A.next| && A.next[L[pos]] == if pos + 1 < |L| then L[pos + 1] else L[0]
    ensures T + U == T + {L[pos]} + (U - {L[pos]})
    ensures Parts(T + {L[pos]} + (U - {L[pos]}), T, L[pos], U - {L[pos]})
  {
    assert ix[L[pos]] == pos;
    assert L[pos] !in V;
    forall v | v in T ensures v !in U {
      assert v in V;
    }
    assert A0.next[L[pos]] == if pos + 1 < |L| then L[pos + 1] else L[0];
  }

  /** After the tree of `L[pos]` is absorbed, the table holds only visited
      roots, the unvisited ones still have their links, and the walk is back
      at the head exactly when no root is left. */
  lemma WalkLeave(A0: Arena, A1: Arena, A2: Arena, L: seq<int>, ix: map<int, int>, pos: nat, T: set<int>, T': set<int>,
                  V: set<int>, U: set<int>)
    requires Tour(A0, L, ix) && pos < |L| && WalkSets(ix, pos, V, U)
    requires RootsKept(A0, A1, V) && RootsKept(A1, A2, T + {L[pos]})
    requires T <= V && T' <= T + {L[pos]}
    ensures T' <= V + {L[pos]} && RootsKept(A0, A2, V + {L[pos]})
    ensures WalkSets(ix, pos + 1, V + {L[pos]}, U - {L[pos]})
    ensures pos + 1 < |L| ==> L[pos + 1] != L[0]
    ensures pos + 1 == |L| ==> U - {L[pos]} == {}
  {
    RootsKeptTrans(A0, A1, A2, V, T + {L[pos]}, V + {L[pos]});
    assert ix[L[pos]] == pos;
    if pos + 1 < |L| {
      assert ix[L[pos + 1]] == pos + 1 && ix[L[0]] == 0;
    } else {
      forall v | v in U ensures v == L[pos] {
        assert L[ix[v]] == v;
      }
    }
  }

  /** `Holds(b)` is `b`. A large fact that a loop only passes along from one
      step to the next is wrapped in it, so that it is carried as one fact
      rather than unfolded at every step. */
  ghost predicate Holds(b: bool) { b }

  /** What `consolidate` leaves behind: the forest over the root ring `L`
      headed by `h`, the minimum `m` a root whose key is the smallest key of
      the whole forest, and no two roots of the same order. */
  ghost predicate Consolidated(A: Arena, K: seq<seq<int>>, H: seq<int>, S: set<int>, L: seq<int>, h: int, m: int) {
    && Forest(A, K, H, S, ToSet(L), {}, -1)
    && List(A.next, A.prev, L, h) && L != []
    && m in L && 0 <= m < |A.key|
    && (forall v :: v in S ==> A.key[m] <= A.key[v])
    && (forall a, b :: a in ToSet(L) && b in ToSet(L) && a != b ==> 0 <= a < |A.order| && 0 <= b < |A.order| && A.order[a] != A.order[b])
  }

  /** The forest after a node left it: either no node is left, and then
      neither is a root or a minimum, or the roots were consolidated. */
  ghost predicate Settled(A: Arena, K: seq<seq<int>>, H: seq<int>, S: set<int>, L: seq<int>, h: int, m: int) {
    if S == {} then Forest(A, K, H, S, ToSet(L), {}, -1) && List(A.next, A.prev, L, h) && m == -1
    else Consolidated(A, K, H, S, L, h, m)
  }

  /** A node of the forest without a parent is a root. */
  lemma RootIn(A: Arena, K: seq<seq<int>>, H: seq<int>, S: set<int>, L: seq<int>, x: int)
    requires Holds(Forest(A, K, H, S, ToSet(L), {}, -1))
    requires x in S && A.parent[x] == -1
    ensures x in L
  {
    assert Linked(A, K, S, ToSet(L), x);
  }

  /** `DecreaseKey`'s write of the new key `k` of `i`: the forest is intact
      except perhaps at `i`, and wholly intact unless `i`'s parent has a
      greater key. */
  lemma Lowered(A: Arena, A': Arena, K: seq<seq<int>>, H: seq<int>, S: set<int>, R: set<int>, i: int, k: int)
    requires Holds(Forest(A, K, H, S, R, {}, -1))
    requires i in S && k <= A.key[i]
    requires A' == A.(key := A.key[i := k])
    ensures Holds(Forest(A', K, H, S, R, {}, i))
    ensures A.parent[i] == -1 || (0 <= A.parent[i] < |A.key| && A.parent[i] != i)
    ensures A.parent[i] == -1 || A.key[A.parent[i]] <= k ==> Holds(Forest(A', K, H, S, R, {}, -1))
  {
    Decrease(A, A', K, H, S, R, i, k);
    if A.parent[i] != -1 {
      assert Linked(A, K, S, R, i);
      assert NodeOk(A, K, H, S, A.parent[i], -1);
    }
  }

  /** The end of `consolidate`: the rebuilt root ring `B` holds the roots
      `T` of the table, and `m` was chosen as the smallest of their keys. */
  lemma ConsolidateEnd(A: Arena, K: seq<seq<int>>, H: seq<int>, S: set<int>, table: map<int, int>, T: set<int>, B: seq<int>, h: int, m: int)
    requires Holds(Forest(A, K, H, S, ToSet(B), {}, -1)) && Holds(List(A.next, A.prev, B, h)) && ToSet(B) == T
    requires TableOk(table, T, A.order)
    requires m in T && forall r :: r in T ==> A.key[m] <= A.key[r]
    ensures Holds(Consolidated(A, K, H, S, B, h, m))
  {
    MinOfRootsIsMin(A, K, H, S, T, A.key[m]);
    forall a, b | a in T && b in T && a != b ensures 0 <= a < |A.order| && 0 <= b < |A.order| && A.order[a] != A.order[b] {
      TableOrdersDistinct(table, T, A.order, a, b);
    }
  }

  /** What `cut` relies on about a node `x` that has a parent: the parent
      `p` is in the forest with a higher rank, its child ring holds `x` at
      position `pos`, and neither `x` nor its two siblings is a root. */
  lemma CutFacts(A: Arena, K: seq<seq<int>>, H: seq<int>, S: set<int>, L: seq<int>, bad: int, x: int) returns (pos: nat)
    requires Holds(Forest(A, K, H, S, ToSet(L), {}, bad))
    requires x in S && 0 <= x < |A.parent| && A.parent[x] != -1
    ensures var p := A.parent[x];
      && p in S && 0 <= p < |A.key| && 0 <= x < |A.key| && H[x] < H[p]
      && pos < |K[p]| && K[p][pos] == x && Ring(A.next, A.prev, K[p]) && A.child[p] == K[p][0]
      && forall j :: j in L ==> j != x && j != A.prev[x] && j != A.next[x]
  {
    var p := A.parent[x];
    assert Linked(A, K, S, ToSet(L), x);
    assert NodeOk(A, K, H, S, p, bad);
    pos := IndexOf(K[p], x);
    RingNeighbours(A.next, A.prev, K[p], pos);
    assert NodeOk(A, K, H, S, p, bad);
    forall j | j in L ensures j != x && j != A.prev[x] && j != A.next[x] {
      assert j in ToSet(L);
    }
  }

  /** A ring none of whose nodes is relinked keeps its shape. */
  lemma RootsUntouched(A: Arena, A1: Arena, L: seq<int>, h: int, x: int)
    requires List(A.next, A.prev, L, h)
    requires |A1.next| == |A.next| && |A1.prev| == |A.prev| && |A.prev| == |A.next| && 0 <= x < |A.next|
    requires forall j :: j in L ==> j != x && j != A.prev[x] && j != A.next[x]
    requires forall j :: 0 <= j < |A.next| && j != x && j != A.prev[x] && j != A.next[x] ==> A1.next[j] == A.next[j] && A1.prev[j] == A.prev[j]
    ensures List(A1.next, A1.prev, L, h)
  {
    forall k | 0 <= k < |L| ensures A1.next[L[k]] == A.next[L[k]] && A1.prev[L[k]] == A.prev[L[k]] {
      assert L[k] in L;
    }
    ListFrame(A.next, A.prev, A1.next, A1.prev, L, h);
  }

  /** One round of `cut(x)`: `x` leaves the child ring of its parent `p`,
      where it sat at position `pos` (arena `A1`), and is then spliced in as
      the new head of the root ring `L` (arena `A'`). A key that was lowered
      at `x` no longer breaks heap order, since `x` is now a root. */
  lemma CutStep(A: Arena, A1: Arena, A': Arena, K: seq<seq<int>>, H: seq<int>, S: set<int>, L: seq<int>,
                bad: int, x: int, p: int, pos: nat, nc: int)
    requires Forest(A, K, H, S, ToSet(L), {}, bad)
    requires x in S && 0 <= x < |A.key| && 0 <= p < |A.key| && A.parent[x] == p && (bad == -1 || bad == x)
    requires pos < |K[p]| && K[p][pos] == x
    requires forall j :: j in L ==> j != x
    requires DetachedState(A, A1, K, x, p, pos, nc)
    requires A'.key == A1.key && A'.order == A1.order && A'.parent == A1.parent && A'.child == A1.child
    requires |A'.next| == |A1.next| && |A'.prev| == |A1.prev|
    requires forall j :: 0 <= j < |A1.next| && j != x && j !in Ends(L) ==> A'.next[j] == A1.next[j] && A'.prev[j] == A1.prev[j]
    ensures Holds(Forest(A', K[p := Without(K[p], pos)], H, S, ToSet([x] + L), {}, -1))
    ensures A'.order == A.order[p := A.order[p] - 1]
  {
    var K' := K[p := Without(K[p], pos)];
    assert Linked(A, K, S, ToSet(L), x);
    Detach(A, A1, K, H, S, ToSet(L), bad, x, p, pos, nc);
    EndsIn(L);
    forall c | c in {x} + Ends(L) ensures c !in S || A1.parent[c] == -1 {
      if c != x {
        assert c in ToSet(L);
      }
    }
    FrameLinks(A1, A', K', H, S, ToSet(L) + {x}, {}, bad, {x} + Ends(L));
    assert ToSet([x] + L) == ToSet(L) + {x};
    if bad == x {
      Healed(A', K', H, S, ToSet(L) + {x}, x);
    }
  }

  /** The child ring `L` of a removed node, stated for the loop that walks
      it: every child has its position in `ix`, and `next` leads from each
      child to the following one. */
  ghost predicate Cycle(nx: seq<int>, L: seq<int>, ix: map<int, int>) {
    && |L| > 0 && Indexed(L, ix)
    && (forall k {:trigger L[k]} :: 0 <= k < |L| ==> 0 <= L[k] < |nx|)
    && (forall k {:trigger nx[L[k]]} :: 0 <= k < |L| ==> nx[L[k]] == if k + 1 < |L| then L[k + 1] else L[0])
  }

  lemma CycleOf(nx: seq<int>, pv: seq<int>, L: seq<int>)
    requires Ring(nx, pv, L)
    ensures Cycle(nx, L, Positions(L))
  {
    forall k | 0 <= k < |L| ensures nx[L[k]] == if k + 1 < |L| then L[k + 1] else L[0] {
      if k + 1 == |L| {
        assert L[k] == Last(L);
      }
    }
  }

  /** A forest with no nodes has no roots, and the other way round. */
  lemma RootsIffNodes(A: Arena, K: seq<seq<int>>, H: seq<int>, S: set<int>, L: seq<int>)
    requires Holds(Forest(A, K, H, S, ToSet(L), {}, -1))
    ensures L == [] <==> S == {}
  {
    NonEmptyHasRoot(A, K, H, S, ToSet(L));
    if L != [] {
      assert L[0] in ToSet(L);
    }
  }

  /** Clearing the parent fields of all the exempt nodes `E` at once makes
      them roots. */
  lemma ClearAll(A: Arena, A': Arena, K: seq<seq<int>>, H: seq<int>, S: set<int>, R: set<int>, E: set<int>)
    requires Forest(A, K, H, S, R, E, -1)
    requires forall c :: c in E ==> A.parent[c] !in S
    requires A'.key == A.key && A'.order == A.order && A'.child == A.child && A'.next == A.next && A'.prev == A.prev
    requires |A'.parent| == |A.parent|
    requires forall j :: 0 <= j < |A.parent| ==> A'.parent[j] == if j in E then -1 else A.parent[j]
    ensures Forest(A', K, H, S, R + E, {}, -1)
  {
    forall y | y in S ensures NodeOk(A', K, H, S, y, -1) {
      assert NodeOk(A, K, H, S, y, -1);
    }
    forall z | z in S ensures Linked(A', K, S, R + E, z) {
      if z !in E {
        assert Linked(A, K, S, R, z);
      }
    }
  }

  /** The fields of a node outside the forest do not matter to it. */
  lemma ChildOutside(A: Arena, K: seq<seq<int>>, H: seq<int>, S: set<int>, R: set<int>, x: int, v: int)
    requires Forest(A, K, H, S, R, {}, -1)
    requires 0 <= x < |A.child| && x !in S
    ensures Forest(A.(child := A.child[x := v]), K, H, S, R, {}, -1)
  {
    var A' := A.(child := A.child[x := v]);
    forall y | y in S ensures NodeOk(A', K, H, S, y, -1) {
      assert NodeOk(A, K, H, S, y, -1);
    }
    forall z | z in S ensures Linked(A', K, S, R, z) {
      assert Linked(A, K, S, R, z);
    }
  }

  lemma MeldEndsIn(X: seq<int>, Y: seq<int>)
    ensures forall e :: e in MeldEnds(X, Y) ==> e in X || e in Y
  {
    if X != [] && Y != [] {
      assert Last(X) in X;
      assert After(Y, 0) in Y;
    }
  }

  /** What removing the root `x`, at position `pos` of the root ring `L`,
      leaves: `x` is cut out of the root ring (arena `A1`), its children
      lose their parent, their ring is melded into the root ring, and `x`
      loses its child (arena `A'`). The forest has lost `x`, and its roots
      are the other roots and the children of `x`. */
  ghost predicate Unrooted(A: Arena, A1: Arena, A': Arena, Y: seq<int>, L: seq<int>, x: int, pos: nat) {
    && pos < |L| && L[pos] == x && 0 <= x < |A.key| && |A.child| == |A.key|
    && |A.next| == |A.key| && |A.prev| == |A.key|
    && A'.key == A.key && A'.order == A.order && A'.child == A.child[x := -1]
    && |A'.parent| == |A.parent| && |A1.next| == |A.next| && |A1.prev| == |A.prev| && |A'.next| == |A.next| && |A'.prev| == |A.prev|
    && (forall j :: 0 <= j < |A.parent| ==> A'.parent[j] == if j in Y then -1 else A.parent[j])
    && (forall j :: 0 <= j < |A.next| && j != x && j != A.prev[x] && j != A.next[x] ==> A1.next[j] == A.next[j] && A1.prev[j] == A.prev[j])
    && (forall j :: 0 <= j < |A.next| && j !in MeldEnds(Without(L, pos), Y) ==> A'.next[j] == A1.next[j] && A'.prev[j] == A1.prev[j])
  }

  /** After removing the root `x`, the forest over the other nodes is
      intact, and its roots are the other roots and the children of `x`. */
  lemma UnrootStep(A: Arena, A1: Arena, A': Arena, K: seq<seq<int>>, H: seq<int>, S: set<int>, L: seq<int>, x: int, pos: nat)
    requires Holds(Forest(A, K, H, S, ToSet(L), {}, -1)) && Ring(A.next, A.prev, L)
    requires 0 <= x < |K| && Holds(Unrooted(A, A1, A', K[x], L, x, pos))
    ensures Forest(A', K, H, S - {x}, ToSet(MeldSeq(Without(L, pos), K[x])), {}, -1)
  {
    var S', R', E := S - {x}, ToSet(L) - {x}, ToSet(K[x]);
    var Ac := A.(parent := A'.parent, child := A.child[x := -1]);
    UnrootParents(A, K, H, S, L, x, A'.parent);
    UnrootFrame(A, A1, A', L, K[x], pos);
    forall c | c in ToSet(L) + E ensures c !in S' || Ac.parent[c] == -1 {
      if c in ToSet(L) && c !in E {
        assert A.parent[c] == -1;
      }
    }
    FrameLinks(Ac, A', K, H, S', R' + E, {}, -1, ToSet(L) + E);
    UnrootMembers(L, K[x], pos);
  }

  /** The parent and child fields of removing the root `x`. */
  lemma UnrootParents(A: Arena, K: seq<seq<int>>, H: seq<int>, S: set<int>, L: seq<int>, x: int, P': seq<int>)
    requires Forest(A, K, H, S, ToSet(L), {}, -1)
    requires x in L && 0 <= x < |A.key| && |P'| == |A.parent|
    requires forall j :: 0 <= j < |A.parent| ==> P'[j] == if j in K[x] then -1 else A.parent[j]
    ensures Forest(A.(parent := P', child := A.child[x := -1]), K, H, S - {x}, ToSet(L) - {x} + ToSet(K[x]), {}, -1)
    ensures Distinct(K[x]) && forall v :: v in K[x] ==> v !in L
  {
    var S', R', E := S - {x}, ToSet(L) - {x}, ToSet(K[x]);
    assert x in ToSet(L);
    RemoveRoot(A, K, H, S, ToSet(L), x);
    var Ap := A.(parent := P');
    ClearAll(A, Ap, K, H, S', R', E);
    ChildOutside(Ap, K, H, S', R' + E, x, -1);
    assert NodeOk(A, K, H, S, x, -1);
    forall v | v in K[x] ensures v !in L {
      assert A.parent[v] == x;
    }
  }

  /** The links of removing the root `x`: only the root ring and the child
      ring of `x` are relinked. */
  lemma UnrootFrame(A: Arena, A1: Arena, A': Arena, L: seq<int>, Y: seq<int>, pos: nat)
    requires Ring(A.next, A.prev, L) && pos < |L|
    requires |A1.next| == |A.next| && |A1.prev| == |A.prev| && |A'.next| == |A.next| && |A'.prev| == |A.prev| && |A.prev| == |A.next|
    requires var x := L[pos];
      forall j :: 0 <= j < |A.next| && j != x && j != A.prev[x] && j != A.next[x] ==> A1.next[j] == A.next[j] && A1.prev[j] == A.prev[j]
    requires forall j :: 0 <= j < |A.next| && j !in MeldEnds(Without(L, pos), Y) ==> A'.next[j] == A1.next[j] && A'.prev[j] == A1.prev[j]
    ensures forall j :: 0 <= j < |A.next| && j !in ToSet(L) + ToSet(Y) ==> A'.next[j] == A.next[j] && A'.prev[j] == A.prev[j]
  {
    NeighbourLinks(A.next, A.prev, L, pos);
    MeldEndsIn(Without(L, pos), Y);
    WithoutMembers(L, pos);
    assert L[pos] in ToSet(L) && Before(L, pos) in ToSet(L) && After(L, pos) in ToSet(L);
  }

  /** The new root ring holds the other roots and the children. */
  lemma UnrootMembers(L: seq<int>, Y: seq<int>, pos: nat)
    requires Distinct(L) && Distinct(Y) && pos < |L|
    requires forall v :: v in Y ==> v !in L
    ensures ToSet(MeldSeq(Without(L, pos), Y)) == ToSet(L) - {L[pos]} + ToSet(Y)
  {
    WithoutMembers(L, pos);
    MeldMembers(Without(L, pos), Y);
  }

  /** What removing the root `x` at position `pos` of the root ring `L`
      headed by `h` relies on: `x` is in the forest, its children form a
      ring that shares no node with the root ring, and so neither `x` nor
      its siblings are among them. */
  lemma UnrootFacts(A: Arena, K: seq<seq<int>>, H: seq<int>, S: set<int>, L: seq<int>, h: int, x: int, pos: nat)
    requires Holds(Forest(A, K, H, S, ToSet(L), {}, -1)) && Holds(List(A.next, A.prev, L, h))
    requires pos < |L| && L[pos] == x
    ensures Ring(A.next, A.prev, L) && h == L[0]
    ensures x in S && 0 <= x < |A.key| && |A.prev| == |A.next| == |A.key| && |K| == |A.key|
    ensures List(A.next, A.prev, K[x], A.child[x])
    ensures forall v :: v in K[x] ==> v !in L
    ensures forall j :: j in K[x] ==> j != x && j != A.prev[x] && j != A.next[x]
  {
    assert x in ToSet(L);
    assert NodeOk(A, K, H, S, x, -1);
    NeighbourLinks(A.next, A.prev, L, pos);
    assert Before(L, pos) in L && After(L, pos) in L;
    forall v | v in K[x] ensures v !in L {
      assert A.parent[v] == x;
    }
  }
}

