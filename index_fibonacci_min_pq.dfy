/** The indexed Fibonacci min-priority queue. Each node lives in slot `i` of a
    set of parallel arrays, where `i` is the client's index; a nil node
    pointer is the handle -1. The abstract value of the queue is the map
    `Contents` from indices to keys; `roots`, `kids` and `height` are ghost
    views of the root ring, of every child ring, and of a rank that grows
    from children to parents. */
module FibonacciHeap {
  import opened Errors
  import opened CircularList
  import opened HeapForest
  import opened QueueInvariant
  import opened CascadingCut

  /** The minimum chosen by the rebuild loop of `consolidate`: starting from
      `m`, every node of `L` in turn replaces the current choice when the
      choice's key is greater (`greater(min.key, n.key)`); -1 is nil.
      `Rebuild` proves that its minimum is this fold over the roots in the
      order it takes them. */
  function SelectMin(m: int, L: seq<int>, key: seq<int>): (r: int)
    requires -1 <= m < |key|
    requires forall k :: 0 <= k < |L| ==> 0 <= L[k] < |key|
    decreases |L|
    ensures -1 <= r < |key| && (r == m || r in L)
  {
    if L == [] then m
    else SelectMin(if m == -1 || key[m] > key[L[0]] then L[0] else m, L[1..], key)
  }

  /** Starting from nil, the choice is a member of `L` whose key is no
      greater than any key of `L`. */
  lemma {:induction false} SelectMinIsMin(m: int, L: seq<int>, key: seq<int>)
    requires -1 <= m < |key|
    requires forall k :: 0 <= k < |L| ==> 0 <= L[k] < |key|
    requires m == -1 ==> L != []
    decreases |L|
    ensures var r := SelectMin(m, L, key);
      && (r == m || r in L)
      && 0 <= r < |key|
      && (m != -1 ==> key[r] <= key[m])
      && forall n :: n in L ==> key[r] <= key[n]
  {
    if L != [] {
      var m' := if m == -1 || key[m] > key[L[0]] then L[0] else m;
      SelectMinIsMin(m', L[1..], key);
      assert forall n :: n in L ==> n == L[0] || n in L[1..];
    }
  }

  /** Taking one more node `n` after the nodes `L` applies one more step of
      the choice to the choice over `L`. */
  lemma {:induction false} SelectMinSnoc(m: int, L: seq<int>, n: int, key: seq<int>)
    requires -1 <= m < |key|
    requires forall k :: 0 <= k < |L| ==> 0 <= L[k] < |key|
    requires 0 <= n < |key|
    decreases |L|
    ensures forall k :: 0 <= k < |L + [n]| ==> 0 <= (L + [n])[k] < |key|
    ensures var c := SelectMin(m, L, key);
      SelectMin(m, L + [n], key) == if c == -1 || key[c] > key[n] then n else c
  {
    if L == [] {
      assert [] + [n] == [n] && [n][1..] == [];
    } else {
      var m' := if m == -1 || key[m] > key[L[0]] then L[0] else m;
      assert (L + [n])[0] == L[0] && (L + [n])[1..] == L[1..] + [n];
      SelectMinSnoc(m', L[1..], n, key);
    }
  }

  /** The rebuild has taken the nodes `P`, in this order, whose set is `D`,
      and `m` is the choice over them from nil. */
  ghost predicate Picked(P: seq<int>, D: set<int>, m: int, key: seq<int>) {
    && (forall k :: 0 <= k < |P| ==> 0 <= P[k] < |key|)
    && ToSet(P) == D && m == SelectMin(-1, P, key)
  }

  /** Taking the node `n` next extends `Picked` by one step of the choice. */
  lemma PickedStep(P: seq<int>, D: set<int>, m: int, key: seq<int>, n: int)
    requires Holds(Picked(P, D, m, key)) && 0 <= n < |key|
    ensures -1 <= m < |key|
    ensures Holds(Picked(P + [n], D + {n}, if m == -1 || key[m] > key[n] then n else m, key))
  {
    SelectMinSnoc(-1, P, n, key);
    assert ToSet(P + [n]) == ToSet(P) + {n};
  }

  /** Deleting the key of an index and inserting a new key for it changes
      just that index's key. */
  lemma Overwrite(C: map<int, int>, i: int, k: int)
    requires i in C
    ensures (C - {i})[i := k] == C[i := k]
  {
    assert (C - {i})[i := k].Keys == C[i := k].Keys;
  }

  class IndexFibonacciMinPQ {
    /** Indices range over 0 .. max-1. */
    const max: nat
    const key: array<int>
    const order: array<int>
    const parent: array<int>
    const child: array<int>
    const prev: array<int>
    const next: array<int>
    const mark: array<bool>
    /** `present[i]` is `nodes[i] != nil`. */
    const present: array<bool>
    var head: int
    var min: int
    var length: int

    ghost var Contents: map<int, int>
    ghost var roots: seq<int>
    ghost var kids: seq<seq<int>>
    ghost var height: seq<int>
    ghost const Repr: set<object>

    /** The arrays all have `max` slots and are distinct objects. */
    ghost predicate Shape() {
      && Repr == {this, key, order, parent, child, prev, next, mark, present}
      && key.Length == max && order.Length == max && parent.Length == max
      && child.Length == max && prev.Length == max && next.Length == max
      && mark.Length == max && present.Length == max
      && key != order && key != parent && key != child && key != prev && key != next
      && order != parent && order != child && order != prev && order != next
      && parent != child && parent != prev && parent != next
      && child != prev && child != next
      && prev != next
      && mark != present
      && key as object != mark && order as object != mark && parent as object != mark
      && child as object != mark && prev as object != mark && next as object != mark
      && key as object != present && order as object != present && parent as object != present
      && child as object != present && prev as object != present && next as object != present
    }

    /** The node fields the forest invariant is about. */
    ghost function Snap(): Arena
      reads key, order, parent, child, prev, next
    {
      Arena(key[..], order[..], parent[..], child[..], prev[..], next[..])
    }

    /** The class invariant: the arrays and the ghost views satisfy
        `QueueInvariant.Inv`. */
    ghost predicate Valid()
      reads Repr
    {
      Shape() && Inv(Snap(), present[..], Contents, kids, height, roots, head, min, length)
    }

    /** An empty queue with `max` nil slots, as `NewIndexFibonacciMinPQ`
        allocates it. */
    constructor (max: nat)
      ensures Valid() && fresh(Repr - {this})
      ensures this.max == max && Contents == map[]
    {
      this.max := max;
      key := new int[max](_ => 0);
      order := new int[max](_ => 0);
      parent := new int[max](_ => -1);
      child := new int[max](_ => -1);
      prev := new int[max](_ => -1);
      next := new int[max](_ => -1);
      mark := new bool[max](_ => false);
      present := new bool[max](_ => false);
      head := -1;
      min := -1;
      length := 0;
      Contents := map[];
      roots := [];
      kids := seq(max, _ => []);
      height := seq(max, _ => 0);
      Repr := {this, key, order, parent, child, prev, next, mark, present};
      new;
      EmptyInv(Snap(), present[..], Contents, kids, height, roots, head, min, length);
    }

    /** `insertNode(x, h)`: splices `x` into the ring headed by `h`, just
        before `h`, and returns `x` as the new head. */
    method InsertNode(x: int, h: int, ghost L: seq<int>) returns (nh: int)
      requires Shape() && 0 <= x < max
      requires List(next[..], prev[..], L, h) && x !in L
      modifies next, prev
      ensures nh == x && Ring(next[..], prev[..], [x] + L)
      ensures forall j :: 0 <= j < max && j != x && j !in Ends(L) ==> next[j] == old(next[j]) && prev[j] == old(prev[j])
    {
      if h == -1 {
        prev[x] := x;
        next[x] := x;
      } else {
        ghost var nx, pv := next[..], prev[..];
        var last := prev[h];
        next[last] := x;
        next[x] := h;
        prev[x] := last;
        prev[h] := x;
        RingCons(nx, pv, next[..], prev[..], L, x);
      }
      nh := x;
    }

    /** `cutNode(x, h)`: unlinks the node at position `p` of the ring headed
        by `h`, clears its links and returns the head of what is left. */
    method CutNode(x: int, h: int, ghost L: seq<int>, ghost p: nat) returns (nh: int)
      requires Shape()
      requires Ring(next[..], prev[..], L) && h == L[0] && p < |L| && L[p] == x
      modifies next, prev
      ensures List(next[..], prev[..], Without(L, p), nh)
      ensures next[x] == -1 && prev[x] == -1
      ensures forall j :: 0 <= j < max && j != x && j != old(prev[x]) && j != old(next[x]) ==> next[j] == old(next[j]) && prev[j] == old(prev[j])
    {
      NeighbourLinks(next[..], prev[..], L, p);
      SelfLoopIffSingleton(next[..], prev[..], L, p);
      if next[x] == x {
        next[x] := -1;
        prev[x] := -1;
        return -1;
      }
      ghost var nx, pv := next[..], prev[..];
      prev[next[x]] := prev[x];
      next[prev[x]] := next[x];
      var res := next[x];
      RingRemove(nx, pv, next[..], prev[..], L, p);
      ghost var nx1, pv1 := next[..], prev[..];
      WithoutMembers(L, p);
      next[x] := -1;
      prev[x] := -1;
      RingFrame(nx1, pv1, next[..], prev[..], Without(L, p));
      if h == x {
        nh := res;
      } else {
        nh := h;
      }
    }

    /** `meld(x, y)`: joins the ring headed by `y` into the ring headed by
        `x`; either may be empty. */
    method Meld(x: int, y: int, ghost X: seq<int>, ghost Y: seq<int>) returns (r: int)
      requires Shape()
      requires List(next[..], prev[..], X, x) && List(next[..], prev[..], Y, y)
      requires forall v :: v in X ==> v !in Y
      modifies next, prev
      ensures List(next[..], prev[..], MeldSeq(X, Y), r)
      ensures forall j :: 0 <= j < max && j !in MeldEnds(X, Y) ==> next[j] == old(next[j]) && prev[j] == old(prev[j])
    {
      if x == -1 {
        return y;
      }
      if y == -1 {
        return x;
      }
      ghost var nx, pv := next[..], prev[..];
      NeighbourLinks(nx, pv, X, 0);
      NeighbourLinks(nx, pv, Y, 0);
      next[prev[x]] := next[y];
      prev[next[y]] := prev[x];
      prev[x] := y;
      next[y] := x;
      RingMeld(nx, pv, next[..], prev[..], X, Y);
      r := x;
    }
  
    /** `link(a, b)`: the root `a`, whose key is no smaller than root `b`'s,
        becomes the newest child of `b`. */
    method Link(a: int, b: int, ghost S: set<int>, ghost R: set<int>)
      requires Shape() && |kids| == max && |height| == max
      requires Forest(Snap(), kids, height, S, R, {}, -1)
      requires a in R && b in R && a != b && key[b] <= key[a]
      modifies this`kids, this`height, parent, child, order, next, prev
      ensures Forest(Snap(), kids, height, S, R - {a}, {}, -1)
      ensures |kids| == max && |height| == max
      ensures parent[..] == old(parent[..])[a := b]
      ensures order[..] == old(order[..])[b := old(order[b]) + 1]
      ensures child[..] == old(child[..])[b := a]
      ensures kids == old(kids)[b := [a] + old(kids[b])]
      ensures forall j :: j in Ends(old(kids[b])) ==> 0 <= j < max && old(parent[j]) == b
      ensures forall j :: 0 <= j < max && j != a && j !in Ends(old(kids[b])) ==> next[j] == old(next[j]) && prev[j] == old(prev[j])
      ensures RootsKept(old(Snap()), Snap(), {a})
    {
      ghost var A := Snap();
      ghost var K, H := kids, height;
      assert NodeOk(A, K, H, S, b, -1);
      NotAChild(A, K, H, S, R, {}, -1, a, b);
      EndsIn(K[b]);
      parent[a] := b;
      var nh := InsertNode(a, child[b], K[b]);
      child[b] := nh;
      order[b] := order[b] + 1;
      LinkUnder(A, Snap(), K, H, S, R, a, b);
      kids := K[b := [a] + K[b]];
      height := H[b := Max(H[b], H[a] + 1)];
    }

    /** The updates of `Insert` for an index `i` that is in range and not yet
        in the queue: stores a freshly allocated node `&node{key: k, index: i}`
        (order 0, no parent, no child, unmarked) in `nodes[i]`, splices it into
        the root ring as the new head, counts it, and makes it the minimum when
        the queue was empty or its key is smaller than the old minimum's. */
    method AddNode(i: int, k: int)
      requires Shape() && 0 <= i < max && -1 <= min < max
      requires |kids| == max && |height| == max
      requires List(next[..], prev[..], roots, head) && i !in roots
      modifies this, key, order, parent, child, mark, present, next, prev
      ensures key[..] == old(key[..])[i := k] && order[..] == old(order[..])[i := 0]
      ensures parent[..] == old(parent[..])[i := -1] && child[..] == old(child[..])[i := -1]
      ensures mark[..] == old(mark[..])[i := false] && present[..] == old(present[..])[i := true]
      ensures Ring(next[..], prev[..], [i] + old(roots))
      ensures forall j :: 0 <= j < max && j != i && j !in Ends(old(roots)) ==> next[j] == old(next[j]) && prev[j] == old(prev[j])
      ensures head == i && length == old(length) + 1
      ensures min == if old(min) == -1 || old(key[min]) > k then i else old(min)
      ensures kids == old(kids)[i := []] && height == old(height)[i := 0]
      ensures roots == [i] + old(roots) && Contents == old(Contents)[i := k]
    {
      var m := if min == -1 || key[min] > k then i else min;
      var nh := StoreNode(i, k, head, roots);
      SetFields(nh, m, length + 1, Contents[i := k], [i] + roots, kids[i := []], height[i := 0]);
    }

    /** Assigns the scalar fields and the ghost views in one step. */
    method SetFields(h: int, m: int, n: int, ghost C: map<int, int>, ghost L: seq<int>, ghost K: seq<seq<int>>, ghost H: seq<int>)
      modifies this
      ensures head == h && min == m && length == n
      ensures Contents == C && roots == L && kids == K && height == H
    {
      head, min, length := h, m, n;
      Contents, roots, kids, height := C, L, K, H;
    }

    /** The array writes of `AddNode`. */
    method StoreNode(i: int, k: int, h: int, ghost L: seq<int>) returns (nh: int)
      requires Shape() && 0 <= i < max
      requires List(next[..], prev[..], L, h) && i !in L
      modifies key, order, parent, child, mark, present, next, prev
      ensures key[..] == old(key[..])[i := k] && order[..] == old(order[..])[i := 0]
      ensures parent[..] == old(parent[..])[i := -1] && child[..] == old(child[..])[i := -1]
      ensures mark[..] == old(mark[..])[i := false] && present[..] == old(present[..])[i := true]
      ensures nh == i && Ring(next[..], prev[..], [i] + L)
      ensures forall j :: 0 <= j < max && j != i && j !in Ends(L) ==> next[j] == old(next[j]) && prev[j] == old(prev[j])
    {
      key[i] := k;
      order[i] := 0;
      parent[i] := -1;
      child[i] := -1;
      mark[i] := false;
      present[i] := true;
      nh := InsertNode(i, h, L);
    }

    /** Associates the key `k` with the index `i`. */
    method Insert(i: int, k: int) returns (r: Outcome)
      requires Valid()
      modifies Repr
      ensures Valid()
      ensures r == (if i < 0 || i >= max then Fail(IllegalArgument)
                    else if i in old(Contents) then Fail(AlreadyInQueue)
                    else Pass)
      ensures r.Fail? ==> unchanged(Repr)
      ensures r.Pass? ==> Contents == old(Contents)[i := k]
      ensures r.Pass? ==> min == (if old(length) == 0 || old(key[min]) > k then i else old(min))
    {
      if i < 0 || i >= max {
        return Fail(IllegalArgument);
      }
      if Contains(i) {
        return Fail(AlreadyInQueue);
      }
      ghost var A, P, C := Snap(), present[..], Contents;
      ghost var K, H, L := kids, height, roots;
      ghost var h, m, n := head, min, length;
      AddNode(i, k);
      InsertInv(A, Snap(), P, present[..], C, Contents, K, kids, H, height, L, roots, h, head, m, min, n, length, i, k);
      r := Pass;
    }

    /** `consolidate`: links the roots of equal order until no two roots
        have the same order, then rebuilds the root ring from them and
        chooses the minimum among them. Keys, marks and the `nodes` slots
        are untouched; the forest keeps its nodes. */
    method Consolidate(ghost S: set<int>)
      requires Shape() && |kids| == max && |height| == max
      requires Holds(Forest(Snap(), kids, height, S, ToSet(roots), {}, -1))
      requires Holds(List(next[..], prev[..], roots, head)) && roots != []
      modifies this`kids, this`height, parent, child, order, next, prev, this`head, this`min, this`roots
      ensures Holds(Consolidated(Snap(), kids, height, S, roots, head, min))
    {
      ghost var L := roots;
      TourOf(Snap(), kids, height, S, L);
      ghost var ix := Positions(L);
      var table, T := Walk(S, L, ix);
      Reroot(table, T, S);
    }

    /** The second half of `consolidate`: the roots held in the table become
        the new root ring, and the minimum is chosen among them. */
    method Reroot(table: map<int, int>, ghost T: set<int>, ghost S: set<int>)
      requires Shape()
      requires Holds(Forest(Snap(), kids, height, S, T, {}, -1))
      requires TableOk(table, T, order[..]) && T != {}
      modifies next, prev, this`head, this`min, this`roots
      ensures Holds(Consolidated(Snap(), kids, height, S, roots, head, min))
    {
      var h, m, B, _ := Rebuild(table, T, S);
      ConsolidateEnd(Snap(), kids, height, S, table, T, B, h, m);
      SetRing(h, m, B);
    }

    /** Assigns the root ring fields in one step. */
    method SetRing(h: int, m: int, ghost L: seq<int>)
      modifies this`head, this`min, this`roots
      ensures head == h && min == m && roots == L && Snap() == old(Snap())
    {
      head, min, roots := h, m, L;
    }

    /** The walk of `consolidate` over the root ring `L`, whose positions
        are `ix`: every root in ring order, starting at `head`, is absorbed
        into the order table. At the end the table's roots are all the
        roots, one per order. */
    method Walk(ghost S: set<int>, ghost L: seq<int>, ghost ix: map<int, int>) returns (table: map<int, int>, ghost T: set<int>)
      requires Shape()
      requires Holds(Forest(Snap(), kids, height, S, ix.Keys, {}, -1))
      requires Tour(Snap(), L, ix) && head == L[0]
      modifies this`kids, this`height, parent, child, order, next, prev
      ensures Holds(Forest(Snap(), kids, height, S, T, {}, -1))
      ensures TableOk(table, T, order[..]) && T != {}
    {
      ghost var A0 := Snap();
      var x := head;
      table, T := map[], {};
      ghost var pos, V, U := 0, {}, ix.Keys;
      assert T + U == ix.Keys;
      while true
        invariant pos < |L| && x == L[pos] && WalkSets(ix, pos, V, U)
        invariant Holds(Forest(Snap(), kids, height, S, T + U, {}, -1))
        invariant T <= V && TableOk(table, T, order[..])
        invariant RootsKept(A0, Snap(), V)
        decreases |L| - pos
      {
        x, table, T, V, U := Visit(x, table, T, S, L, ix, pos, A0, V, U);
        if x == head {
          return;
        }
        pos := pos + 1;
      }
    }

    /** One step of that walk: `x`, the root at position `pos` of the
        original ring `L`, is absorbed, and its original successor is next. */
    method Visit(x: int, table: map<int, int>, ghost T: set<int>, ghost S: set<int>, ghost L: seq<int>, ghost ix: map<int, int>,
                 ghost pos: nat, ghost A0: Arena, ghost V: set<int>, ghost U: set<int>)
        returns (x': int, table': map<int, int>, ghost T': set<int>, ghost V': set<int>, ghost U': set<int>)
      requires Shape()
      requires Tour(A0, L, ix)
      requires pos < |L| && x == L[pos] && WalkSets(ix, pos, V, U) && T <= V
      requires Holds(Forest(Snap(), kids, height, S, T + U, {}, -1))
      requires TableOk(table, T, order[..])
      requires RootsKept(A0, Snap(), V)
      modifies this`kids, this`height, parent, child, order, next, prev
      ensures x' == L[0] <==> pos + 1 == |L|
      ensures pos + 1 < |L| ==> x' == L[pos + 1]
      ensures WalkSets(ix, pos + 1, V', U')
      ensures pos + 1 == |L| ==> T' + U' == T'
      ensures Holds(Forest(Snap(), kids, height, S, T' + U', {}, -1))
      ensures T' <= V' && T' != {} && TableOk(table', T', order[..])
      ensures RootsKept(A0, Snap(), V')
    {
      WalkEnter(A0, Snap(), L, ix, pos, T, V, U);
      ghost var A1 := Snap();
      x' := next[x];
      U', V' := U - {x}, V + {x};
      table', T' := Absorb(x, table, T, S, U');
      WalkLeave(A0, A1, Snap(), L, ix, pos, T, T', V, U);
      if pos + 1 == |L| {
        assert T' + U' == T';
      }
    }

    /** The rebuild of `consolidate`: the roots held in the table, taken in
        any order (the source ranges over a Go map), are spliced one by one
        into a new root ring, and the minimum is chosen among them as they
        come. The choice starts from nil: the source starts it from the old
        head, see `Findings.StaleHeadKept` and `Findings.StaleHeadExample`. */
    method Rebuild(table: map<int, int>, ghost T: set<int>, ghost S: set<int>) returns (h: int, m: int, ghost B: seq<int>, ghost P: seq<int>)
      requires Shape()
      requires Holds(Forest(Snap(), kids, height, S, T, {}, -1))
      requires TableOk(table, T, order[..]) && T != {}
      modifies next, prev
      ensures Holds(Forest(Snap(), kids, height, S, ToSet(B), {}, -1))
      ensures Holds(List(next[..], prev[..], B, h)) && ToSet(B) == T
      ensures m in T && forall r :: r in T ==> key[m] <= key[r]
      ensures forall k :: 0 <= k < |P| ==> 0 <= P[k] < max
      ensures ToSet(P) == T && m == SelectMin(-1, P, key[..])
    {
      ghost var A0 := Snap();
      var keys := table.Keys;
      h, m, B, P := -1, -1, [], [];
      ghost var D: set<int> := {};
      assert ToSet(B) == {};
      while keys != {}
        invariant Holds(RebuildInv(A0, Snap(), table, keys, D, T, B, h, m))
        invariant Holds(Picked(P, D, m, A0.key))
        decreases keys
      {
        // `w` is a witness that lets the solver prove the `:|` below can pick.
        ghost var w := Pick(keys);
        var o :| o in keys;
        PickedStep(P, D, m, A0.key, table[o]);
        h, m, B, D := RebuildStep(o, table, keys, h, m, B, D, T, A0);
        P := P + [table[o]];
        keys := keys - {o};
      }
      DrainedAll(table, D, T, order[..]);
      FrameLinks(A0, Snap(), kids, height, S, T, {}, -1, T);
    }

    /** One round of that rebuild: the root of order `o` is spliced in as
        the new head and becomes the minimum when there is none yet or its
        key is smaller (`greater(min.key, n.key)`). */
    method RebuildStep(o: int, table: map<int, int>, ghost keys: set<int>, h: int, m: int, ghost B: seq<int>,
                       ghost D: set<int>, ghost T: set<int>, ghost A0: Arena)
        returns (h': int, m': int, ghost B': seq<int>, ghost D': set<int>)
      requires Shape() && TableOk(table, T, order[..]) && o in keys
      requires Holds(RebuildInv(A0, Snap(), table, keys, D, T, B, h, m))
      modifies next, prev
      ensures Holds(RebuildInv(A0, Snap(), table, keys - {o}, D', T, B', h', m'))
      ensures 0 <= table[o] < max && h' == table[o] && B' == [table[o]] + B && D' == D + {table[o]}
      ensures m' == if m == -1 || key[m] > key[table[o]] then table[o] else m
    {
      var n := table[o];
      ghost var A := Snap();
      m' := if m == -1 || key[m] > key[n] then n else m;
      h' := InsertNode(n, h, B);
      B', D' := [n] + B, D + {n};
      RebuildStepInv(A0, A, Snap(), table, keys, D, T, B, h, m, order[..], o, m');
    }

    /** The inner loop of `consolidate`: while the table holds a root `z` of
        the same order as the current tree `y`, the two are linked, the one
        with the greater key going under the other, and the survivor goes
        on; at the end it takes the table slot of its order. `U` are the
        roots not yet visited, which keep their links. */
    method Absorb(y: int, table: map<int, int>, ghost T: set<int>, ghost S: set<int>, ghost U: set<int>)
        returns (table': map<int, int>, ghost T': set<int>)
      requires Shape()
      requires Forest(Snap(), kids, height, S, T + {y} + U, {}, -1)
      requires Parts(T + {y} + U, T, y, U)
      requires TableOk(table, T, order[..])
      modifies this`kids, this`height, parent, child, order, next, prev
      ensures Forest(Snap(), kids, height, S, T' + U, {}, -1)
      ensures T' !! U && T' <= T + {y}
      ensures T' != {}
      ensures TableOk(table', T', order[..])
      ensures RootsKept(old(Snap()), Snap(), T + {y})
    {
      ghost var A0 := Snap();
      var x := y;
      table', T' := table, T;
      ghost var R := T + {y} + U;
      while order[x] in table'
        invariant Forest(Snap(), kids, height, S, R, {}, -1)
        invariant Parts(R, T', x, U) && T' + {x} <= T + {y}
        invariant TableOk(table', T', order[..])
        invariant RootsKept(A0, Snap(), T + {y})
        decreases |T'|
      {
        ghost var A1, R0, T0, x0 := Snap(), R, T', x;
        ghost var loser;
        x, table', T', R, loser := LinkSameOrder(x, table', T', S, R);
        PartsStep(R0, T0, x0, U, T', x, loser);
        RootsKeptTrans(A0, A1, Snap(), T + {y}, T0 + {x0}, T + {y});
      }
      TableAdd(table', T', order[..], x);
      table', T' := table'[order[x] := x], T' + {x};
    }

    /** One round of that loop: `x` and the table's root `z` of the same
        order are linked. When `x`'s key is greater, `x` goes under `z`;
        otherwise, ties included, `z` goes under `x`. The one left a root is
        the new `x'`, one order higher. */
    method LinkSameOrder(x: int, table: map<int, int>, ghost T: set<int>, ghost S: set<int>, ghost R: set<int>)
        returns (x': int, table': map<int, int>, ghost T': set<int>, ghost R': set<int>, ghost loser: int)
      requires Shape()
      requires Forest(Snap(), kids, height, S, R, {}, -1)
      requires x in R && x !in T && T <= R
      requires TableOk(table, T, order[..]) && order[x] in table
      modifies this`kids, this`height, parent, child, order, next, prev
      ensures Forest(Snap(), kids, height, S, R', {}, -1)
      ensures TableOk(table', T', order[..])
      ensures loser in T + {x} && x' != loser && T' + {x'} == T + {x} - {loser} && x' !in T' && |T'| < |T|
      ensures R' == R - {loser}
      ensures RootsKept(old(Snap()), Snap(), T + {x})
      ensures 0 <= x < max && 0 <= table[old(order[x])] < max
      ensures loser == (if old(key[x] > key[table[order[x]]]) then x else table[old(order[x])])
      ensures x' == (if old(key[x] > key[table[order[x]]]) then table[old(order[x])] else x)
      ensures parent[loser] == x' && kids[x'] == [loser] + old(kids[x'])
      ensures order[x'] == old(order[x']) + 1
    {
      var o := order[x];
      var z := table[o];
      var a, b := x, z;
      if !(key[x] > key[z]) {
        a, b := z, x;
      }
      ghost var A := Snap();
      Link(a, b, S, R);
      LinkBookkeeping(table, T, A.order, order[..], x, z, a, b);
      RootsKeptMore(A, Snap(), {a}, T + {x});
      table', T' := table - {o}, T - {z};
      x', loser, R' := b, a, R - {a};
    }

    /** `cut(i)` for a node `i` that has a parent: `i` is cut from its
        parent and becomes the head of the root ring; the parent's mark
        flips, and when that leaves it unmarked and it has a parent itself,
        it is cut in turn. `C` lists the nodes cut, in order. A key lowered
        at `i` (the node `bad`) no longer breaks heap order afterwards. */
    method Cut(i: int, ghost S: set<int>, ghost bad: int) returns (ghost C: seq<int>)
      requires Shape() && |kids| == max && |height| == max
      requires Holds(Forest(Snap(), kids, height, S, ToSet(roots), {}, bad))
      requires Holds(List(next[..], prev[..], roots, head))
      requires i in S && 0 <= i < max && parent[i] != -1 && (bad == -1 || bad == i)
      modifies this`kids, this`roots, this`head, parent, child, order, next, prev, mark
      ensures Holds(Forest(Snap(), kids, height, S, ToSet(roots), {}, -1))
      ensures Holds(List(next[..], prev[..], roots, head))
      ensures |kids| == max && C != [] && C[0] == i && i in roots
      ensures roots == Reversed(C) + old(roots)
      ensures Cascade(old(parent[..]), old(mark[..]), height, C, parent[..], mark[..])
      decreases SeqMax(height) - height[i]
    {
      ghost var P, M, L := parent[..], mark[..], roots;
      var p, _ := CutOne(i, S, bad);
      if !mark[p] && parent[p] != -1 {
        var C' := Cut(p, S, -1);
        C := [i] + C';
        ReversedCons(i, C', L);
        CascadeMore(P, M, height, i, p, C', parent[..], mark[..]);
      } else {
        C := [i];
        CascadeStop(P, M, height, i, p);
      }
    }

    /** One round of `cut(x)`: `x` leaves the child ring of its parent `p`
        and loses its parent, `p` loses one order, `x` is spliced in as the
        head of the root ring, and `p`'s mark flips. */
    method CutOne(x: int, ghost S: set<int>, ghost bad: int) returns (p: int, ghost pos: nat)
      requires Shape() && |kids| == max && |height| == max
      requires Holds(Forest(Snap(), kids, height, S, ToSet(roots), {}, bad))
      requires Holds(List(next[..], prev[..], roots, head))
      requires x in S && 0 <= x < max && parent[x] != -1 && (bad == -1 || bad == x)
      modifies this`kids, this`roots, this`head, parent, child, order, next, prev, mark
      ensures Holds(Forest(Snap(), kids, height, S, ToSet(roots), {}, -1))
      ensures Holds(List(next[..], prev[..], roots, head))
      ensures |kids| == max && roots == [x] + old(roots)
      ensures p == old(parent[x]) && p in S && 0 <= p < max && height[x] < height[p]
      ensures parent[..] == old(parent[..])[x := -1]
      ensures mark[..] == old(mark[..])[p := !old(mark[p])]
      ensures order[p] == old(order[p]) - 1
      ensures forall j :: 0 <= j < max && j != p ==> order[j] == old(order[j])
      ensures pos < |old(kids[p])| && old(kids[p])[pos] == x
      ensures kids == old(kids)[p := Without(old(kids[p]), pos)]
    {
      ghost var A, K, L, h := Snap(), kids, roots, head;
      p := parent[x];
      pos := CutFacts(A, K, height, S, L, bad, x);
      var nc := Unhook(x, p, pos, K);
      ghost var A1 := Snap();
      RootsUntouched(A, A1, L, h, x);
      var nh := Rehead(x, p, head, L);
      CutStep(A, A1, Snap(), K, height, S, L, bad, x, p, pos, nc);
      SetCut(nh, [x] + L, K[p := Without(K[p], pos)]);
    }

    /** The first half of a round of `cut(x)`: `x` leaves the child ring of
        its parent `p`, where it is at position `pos`, and `p` loses one
        order. */
    method Unhook(x: int, p: int, ghost pos: nat, ghost K: seq<seq<int>>) returns (nc: int)
      requires Shape() && 0 <= x < max && 0 <= p < max && p < |K|
      requires Ring(next[..], prev[..], K[p]) && child[p] == K[p][0] && pos < |K[p]| && K[p][pos] == x
      modifies next, prev, child, parent, order
      ensures DetachedState(old(Snap()), Snap(), K, x, p, pos, nc)
    {
      nc := CutNode(x, child[p], K[p], pos);
      child[p] := nc;
      parent[x] := -1;
      order[p] := order[p] - 1;
    }

    /** The second half: `x` is spliced in as the head of the root ring `L`
        headed by `h`, and the mark of `p` flips. */
    method Rehead(x: int, p: int, h: int, ghost L: seq<int>) returns (nh: int)
      requires Shape() && 0 <= x < max && 0 <= p < max
      requires List(next[..], prev[..], L, h) && x !in L
      modifies next, prev, mark
      ensures nh == x && Ring(next[..], prev[..], [x] + L)
      ensures forall j :: 0 <= j < max && j != x && j !in Ends(L) ==> next[j] == old(next[j]) && prev[j] == old(prev[j])
      ensures mark[..] == old(mark[..])[p := !old(mark[p])]
    {
      nh := InsertNode(x, h, L);
      mark[p] := !mark[p];
    }

    /** Assigns the root ring's head and the ghost ring views after a cut,
        leaving the arrays as they are. */
    method SetCut(h: int, ghost L: seq<int>, ghost K: seq<seq<int>>)
      modifies this`head, this`roots, this`kids
      ensures head == h && roots == L && kids == K && Snap() == old(Snap())
    {
      head, roots, kids := h, L, K;
    }

    /** Takes the root `x`, at position `pos` of the root ring, out of the
        forest: `x` leaves the root ring (`cutNode(x, head)`), and its
        children lose their parent and their ring is melded into the root
        ring. */
    method Unroot(x: int, ghost S: set<int>, ghost pos: nat)
      requires Shape() && |kids| == max && |height| == max
      requires Holds(Forest(Snap(), kids, height, S, ToSet(roots), {}, -1))
      requires Holds(List(next[..], prev[..], roots, head))
      requires pos < |roots| && roots[pos] == x
      modifies parent, child, next, prev, this`head, this`roots
      ensures Holds(Forest(Snap(), kids, height, S - {x}, ToSet(roots), {}, -1))
      ensures Holds(List(next[..], prev[..], roots, head))
      ensures roots == MeldSeq(Without(old(roots), pos), kids[x])
    {
      ghost var L, Y := roots, kids[x];
      UnrootFacts(Snap(), kids, height, S, L, head, x, pos);
      ghost var A := Snap();
      var r, A1 := Excise(x, head, pos, L, Y);
      UnrootStep(A, A1, Snap(), kids, height, S, L, x, pos);
      SetRoots(r, MeldSeq(Without(L, pos), Y));
    }

    /** Assigns the root ring's head and its ghost view, leaving the arrays
        as they are. */
    method SetRoots(h: int, ghost L: seq<int>)
      modifies this`head, this`roots
      ensures head == h && roots == L && Snap() == old(Snap())
    {
      head, roots := h, L;
    }

    /** The physical steps of `Unroot`: `x` leaves the root ring `L` headed
        by `h`, and its child ring `Y` is melded in. */
    method Excise(x: int, h: int, ghost pos: nat, ghost L: seq<int>, ghost Y: seq<int>) returns (r: int, ghost A1: Arena)
      requires Shape() && 0 <= x < max
      requires Ring(next[..], prev[..], L) && h == L[0] && pos < |L| && L[pos] == x
      requires List(next[..], prev[..], Y, child[x])
      requires forall v :: v in Y ==> v !in L
      requires forall j :: j in Y ==> j != x && j != prev[x] && j != next[x]
      modifies parent, child, next, prev
      ensures Holds(Unrooted(old(Snap()), A1, Snap(), Y, L, x, pos))
      ensures List(next[..], prev[..], MeldSeq(Without(L, pos), Y), r)
    {
      ghost var A := Snap();
      var nh := CutNode(x, h, L, pos);
      A1 := Snap();
      RootsUntouched(A, A1, Y, child[x], x);
      WithoutMembers(L, pos);
      r := Adopt(x, nh, Without(L, pos), Y);
    }

    /** The child ring `Y` of the removed node `x` joins the root ring `X`
        headed by `h`: `x` loses its child, each child loses its parent, and
        the two rings are melded (`meld(head, child)`). Nothing happens when
        `x` has no child. */
    method Adopt(x: int, h: int, ghost X: seq<int>, ghost Y: seq<int>) returns (r: int)
      requires Shape() && 0 <= x < max
      requires List(next[..], prev[..], X, h) && List(next[..], prev[..], Y, child[x])
      requires forall v :: v in Y ==> v !in X
      modifies parent, child, next, prev
      ensures List(next[..], prev[..], MeldSeq(X, Y), r)
      ensures forall j :: 0 <= j < max && j !in MeldEnds(X, Y) ==> next[j] == old(next[j]) && prev[j] == old(prev[j])
      ensures forall j :: 0 <= j < max ==> parent[j] == if j in Y then -1 else old(parent[j])
      ensures child[..] == old(child[..])[x := -1]
    {
      var c := child[x];
      if c != -1 {
        child[x] := -1;
        CycleOf(next[..], prev[..], Y);
        ClearParents(c, Y, Positions(Y));
        r := Meld(h, c, X, Y);
      } else {
        assert child[..] == old(child[..])[x := -1];
        r := h;
      }
    }

    /** The loop over the child ring `L` of a removed node, starting at its
        head `c0`: every child loses its parent, and the loop stops when it
        is back at `c0`. */
    method ClearParents(c0: int, ghost L: seq<int>, ghost ix: map<int, int>)
      requires Shape() && Cycle(next[..], L, ix) && c0 == L[0]
      modifies parent
      ensures forall j :: 0 <= j < max ==> parent[j] == if j in ix then -1 else old(parent[j])
    {
      var c := c0;
      ghost var k := 0;
      while true
        invariant 0 <= k < |L| && c == L[k]
        invariant forall j :: 0 <= j < max ==> parent[j] == if j in ix && ix[j] < k then -1 else old(parent[j])
        decreases |L| - k
      {
        parent[c] := -1;
        c := next[c];
        if c == c0 {
          return;
        }
        k := k + 1;
      }
    }

    /** Takes the root `x`, at position `pos` of the root ring, out of the
        forest of the nodes `S` and the count, then consolidates the
        remaining roots or, when no node is left, clears the minimum. This is
        the tail of `DelMin` (lines 136-152) and, with the count decremented
        before the emptiness test, of `Delete` (lines 248-263, 265). */
    method Drop(x: int, ghost S: set<int>, ghost pos: nat)
      requires Shape() && |kids| == max && |height| == max
      requires Holds(Forest(Snap(), kids, height, S, ToSet(roots), {}, -1))
      requires Holds(List(next[..], prev[..], roots, head))
      requires pos < |roots| && roots[pos] == x && length == |S|
      modifies parent, child, next, prev, order, this`head, this`min, this`length, this`roots, this`kids, this`height
      ensures length == old(length) - 1
      ensures Holds(Settled(Snap(), kids, height, S - {x}, roots, head, min))
    {
      Unroot(x, S, pos);
      length := length - 1;
      if length != 0 {
        assert S - {x} != {} by {
          assert |S - {x}| == |S| - 1;
        }
        RootsIffNodes(Snap(), kids, height, S - {x}, roots);
        Consolidate(S - {x});
      } else {
        assert S - {x} == {} by {
          assert |S - {x}| == |S| - 1;
        }
        min := -1;
      }
    }

    /** `Delete` after its checks: a node with a parent is first cut off
        (`cut(i)`), so that it is a root, and is then dropped. */
    method Evict(x: int, ghost S: set<int>)
      requires Shape() && |kids| == max && |height| == max
      requires Holds(Forest(Snap(), kids, height, S, ToSet(roots), {}, -1))
      requires Holds(List(next[..], prev[..], roots, head))
      requires x in S && 0 <= x < max && length == |S|
      modifies parent, child, next, prev, order, mark, this`head, this`min, this`length, this`roots, this`kids, this`height
      ensures length == old(length) - 1
      ensures Holds(Settled(Snap(), kids, height, S - {x}, roots, head, min))
    {
      if parent[x] != -1 {
        ghost var C := Cut(x, S, -1);
      } else {
        RootIn(Snap(), kids, height, S, roots, x);
      }
      Drop(x, S, IndexOf(roots, x));
    }

    /** `nodes[x] = nil`. */
    method Release(x: int)
      requires Shape() && 0 <= x < max
      modifies present, this`Contents
      ensures present[..] == old(present[..])[x := false] && Contents == old(Contents) - {x}
    {
      present[x] := false;
      Contents := Contents - {x};
    }

    /** Deletes and returns an index with the smallest key. */
    method DelMin() returns (r: Result<int>)
      requires Valid()
      modifies Repr
      ensures Valid()
      ensures old(Contents) == map[] ==> r == Err(EmptyQueue) && unchanged(Repr)
      ensures old(Contents) != map[] ==> r.Ok? && r.value in old(Contents)
      ensures r.Ok? ==> (forall j :: j in old(Contents) ==> old(Contents)[r.value] <= old(Contents)[j])
      ensures r.Ok? ==> Contents == old(Contents) - {r.value}
      ensures r.Ok? ==> r == old(MinIndex())
    {
      if IsEmpty() {
        return Err(EmptyQueue);
      }
      ghost var A, P, C, K, H := Snap(), present[..], Contents, kids, height;
      ghost var L, h, m, n := roots, head, min, length;
      var x := min;
      Drop(x, C.Keys, IndexOf(roots, x));
      Release(x);
      RemoveInv(A, Snap(), P, present[..], C, Contents, K, kids, H, height, L, roots, h, head, m, min, n, length, x);
      r := Ok(x);
    }

    /** Deletes the index `i` and its key. */
    method Delete(i: int) returns (r: Outcome)
      requires Valid()
      modifies Repr
      ensures Valid()
      ensures r == (if i < 0 || i >= max then Fail(IllegalArgument)
                    else if i !in old(Contents) then Fail(NotInQueue)
                    else Pass)
      ensures r.Fail? ==> unchanged(Repr)
      ensures r.Pass? ==> Contents == old(Contents) - {i}
    {
      if i < 0 || i >= max {
        return Fail(IllegalArgument);
      }
      if !Contains(i) {
        return Fail(NotInQueue);
      }
      ghost var A, P, C, K, H := Snap(), present[..], Contents, kids, height;
      ghost var L, h, m, n := roots, head, min, length;
      Evict(i, C.Keys);
      Release(i);
      RemoveInv(A, Snap(), P, present[..], C, Contents, K, kids, H, height, L, roots, h, head, m, min, n, length, i);
      r := Pass;
    }

    /** Lowers the key of the index `i` to `k`. */
    method DecreaseKey(i: int, k: int) returns (r: Outcome)
      requires Valid()
      modifies Repr
      ensures Valid()
      ensures r == (if i < 0 || i >= max then Fail(IllegalArgument)
                    else if i !in old(Contents) then Fail(NotInQueue)
                    else if k > old(Contents)[i] then Fail(NotDecrease)
                    else Pass)
      ensures r.Fail? ==> unchanged(Repr)
      ensures r.Pass? ==> Contents == old(Contents)[i := k]
      ensures r.Pass? ==> MinIndex() == Ok(if old(key[min]) > k then i else old(min))
    {
      if i < 0 || i >= max {
        return Fail(IllegalArgument);
      }
      if !Contains(i) {
        return Fail(NotInQueue);
      }
      if k > key[i] {
        return Fail(NotDecrease);
      }
      ghost var A, P, C, K, H := Snap(), present[..], Contents, kids, height;
      ghost var L, h, m, n := roots, head, min, length;
      Lower(i, k, C.Keys);
      DecreaseInv(A, Snap(), P, C, K, kids, H, L, roots, h, head, m, min, n, i, k);
      r := Pass;
    }

    /** `DecreaseKey` after its checks: stores the new key, makes `i` the
        minimum when its key is now smaller than the minimum's, and cuts `i`
        off when its parent's key is now greater. */
    method Lower(i: int, k: int, ghost S: set<int>)
      requires Shape() && |kids| == max && |height| == max
      requires Holds(Forest(Snap(), kids, height, S, ToSet(roots), {}, -1))
      requires Holds(List(next[..], prev[..], roots, head))
      requires i in S && 0 <= i < max && k <= key[i] && 0 <= min < max
      modifies key, parent, child, next, prev, order, mark, this`head, this`min, this`roots, this`kids, this`Contents
      ensures Holds(Forest(Snap(), kids, height, S, ToSet(roots), {}, -1))
      ensures Holds(List(next[..], prev[..], roots, head))
      ensures key[..] == old(key[..])[i := k] && |Snap().key| == max && Contents == old(Contents)[i := k]
      ensures min == if old(key[min]) > k then i else old(min)
      ensures || (roots == old(roots) && parent[..] == old(parent[..])
                  && (old(parent[i]) == -1 || (0 <= old(parent[i]) < max && old(key[parent[i]]) <= k)))
              || (i in roots && forall r :: r in old(roots) ==> r in roots)
    {
      SetKey(i, k, S);
      var p := parent[i];
      if p != -1 && key[p] > k {
        ghost var C := Cut(i, S, i);
      }
    }

    /** The writes of `x.key = key` and of the minimum update. */
    method SetKey(i: int, k: int, ghost S: set<int>)
      requires Shape() && |kids| == max && |height| == max
      requires Holds(Forest(Snap(), kids, height, S, ToSet(roots), {}, -1))
      requires i in S && 0 <= i < max && k <= key[i] && 0 <= min < max
      modifies key, this`min, this`Contents
      ensures Holds(Forest(Snap(), kids, height, S, ToSet(roots), {}, i))
      ensures parent[i] == -1 || (0 <= parent[i] < max && parent[i] != i)
      ensures parent[i] == -1 || old(key[parent[i]]) <= k ==> Holds(Forest(Snap(), kids, height, S, ToSet(roots), {}, -1))
      ensures key[..] == old(key[..])[i := k] && Contents == old(Contents)[i := k]
      ensures min == if old(key[min]) > k then i else old(min)
    {
      ghost var A := Snap();
      key[i] := k;
      Lowered(A, Snap(), kids, height, S, ToSet(roots), i, k);
      if key[min] > k {
        min := i;
      }
      Contents := Contents[i := k];
    }

    /** Raises the key of the index `i` to `k`, by deleting `i` and inserting
        it again with the new key. The errors that `Delete` and `Insert`
        could return cannot occur after the checks made here. */
    method IncreaseKey(i: int, k: int) returns (r: Outcome)
      requires Valid()
      modifies Repr
      ensures Valid()
      ensures r == (if i < 0 || i >= max then Fail(IllegalArgument)
                    else if i !in old(Contents) then Fail(NotInQueue)
                    else if old(Contents)[i] > k then Fail(NotIncrease)
                    else Pass)
      ensures r.Fail? ==> unchanged(Repr)
      ensures r.Pass? ==> Contents == old(Contents)[i := k]
    {
      if i < 0 || i >= max {
        return Fail(IllegalArgument);
      }
      if !Contains(i) {
        return Fail(NotInQueue);
      }
      if key[i] > k {
        return Fail(NotIncrease);
      }
      Replace(i, k);
      r := Pass;
    }

    /** The `Delete(i)` and `Insert(i, key)` of `IncreaseKey`; both succeed. */
    method Replace(i: int, k: int)
      requires Valid() && 0 <= i < max && i in Contents
      modifies Repr
      ensures Valid() && Contents == old(Contents)[i := k]
    {
      ghost var C := Contents;
      var e := Delete(i);
      assert e == Pass;
      e := Insert(i, k);
      assert e == Pass;
      Overwrite(C, i, k);
    }

    /** Changes the key of the index `i` to `k`, raising or lowering it. */
    method ChangeKey(i: int, k: int) returns (r: Outcome)
      requires Valid()
      modifies Repr
      ensures Valid()
      ensures r == (if i < 0 || i >= max then Fail(IllegalArgument)
                    else if i !in old(Contents) then Fail(NotInQueue)
                    else Pass)
      ensures r.Fail? ==> unchanged(Repr)
      ensures r.Pass? ==> Contents == old(Contents)[i := k]
      ensures r.Pass? && k <= old(Contents)[i] ==> MinIndex() == Ok(if old(key[min]) > k then i else old(min))
    {
      if i < 0 || i >= max {
        return Fail(IllegalArgument);
      }
      if !Contains(i) {
        return Fail(NotInQueue);
      }
      if k > key[i] {
        r := IncreaseKey(i, k);
      } else {
        r := DecreaseKey(i, k);
      }
    }

    /** The indices in the queue, in ascending order. */
    method Slice() returns (s: seq<int>)
      requires Valid()
      ensures forall j :: j in s <==> j in Contents
      ensures forall a, b :: 0 <= a < b < |s| ==> s[a] < s[b]
      ensures |s| == |Contents|
    {
      s := [];
      for j := 0 to max
        invariant forall v :: v in s <==> 0 <= v < j && present[v]
        invariant forall a :: 0 <= a < |s| ==> s[a] < j
        invariant forall a, b :: 0 <= a < b < |s| ==> s[a] < s[b]
      {
        if present[j] {
          s := s + [j];
        }
      }
      DistinctCard(s);
      assert forall v :: v in ToSet(s) <==> v in Contents;
      assert ToSet(s) == Contents.Keys;
    }

    /** Whether no key is in the queue. */
    function IsEmpty(): (b: bool)
      requires Valid()
      reads Repr
      ensures b <==> Contents == map[]
    {
      length == 0
    }

    /** Indices outside 0 .. max-1 are never contained. */
    function Contains(i: int): (b: bool)
      requires Valid()
      reads Repr
      ensures b <==> i in Contents
    {
      if i < 0 || i >= max then false else present[i]
    }

    /** The number of keys in the queue. */
    function Len(): (n: int)
      requires Valid()
      reads Repr
      ensures n == |Contents|
    {
      length
    }

    /** The index of a smallest key. */
    function MinIndex(): (r: Result<int>)
      requires Valid()
      reads Repr
      ensures r.Err? <==> Contents == map[]
      ensures r.Err? ==> r.error == EmptyQueue
      ensures r.Ok? ==> r.value in Contents && forall j :: j in Contents ==> Contents[r.value] <= Contents[j]
    {
      if IsEmpty() then Err(EmptyQueue) else Ok(min)
    }

    /** The smallest key. */
    function MinKey(): (r: Result<int>)
      requires Valid()
      reads Repr
      ensures r.Err? <==> Contents == map[]
      ensures r.Err? ==> r.error == EmptyQueue
      ensures r.Ok? ==> r.value in Contents.Values && forall j :: j in Contents ==> r.value <= Contents[j]
    {
      if IsEmpty() then Err(EmptyQueue) else Ok(key[min])
    }

    /** The key associated with `i`. */
    function KeyOf(i: int): (r: Result<int>)
      requires Valid()
      reads Repr
      ensures r == (if i < 0 || i >= max then Err(IllegalArgument)
                    else if i !in Contents then Err(NotInQueue)
                    else Ok(Contents[i]))
    {
      if i < 0 || i >= max then Err(IllegalArgument)
      else if !Contains(i) then Err(NotInQueue)
      else Ok(key[i])
    }
  }

  /** An empty queue for the indices 0 .. max-1; a negative size is refused. */
  method NewIndexFibonacciMinPQ(max: int) returns (r: Result<IndexFibonacciMinPQ>)
    ensures r.Err? <==> max < 0
    ensures r.Err? ==> r.error == NegativeSize
    ensures r.Ok? ==> r.value.Valid() && fresh(r.value.Repr) && r.value.max == max && r.value.Contents == map[]
  {
    if max < 0 {
      return Err(NegativeSize);
    }
    var pq := new IndexFibonacciMinPQ(max);
    return Ok(pq);
  }
}
