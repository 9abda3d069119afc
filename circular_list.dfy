/** Circular doubly-linked lists threaded through two arrays of handles:
    `nx[x]` is the successor of node `x` and `pv[x]` its predecessor. A list is
    described by the ghost sequence of its nodes, starting at its head. */
module CircularList {

  function ToSet(L: seq<int>): set<int> {
    set x | x in L
  }

  /** A list without repeats has as many distinct elements as it is long. */
  lemma {:induction false} DistinctCard(L: seq<int>)
    requires Distinct(L)
    ensures |ToSet(L)| == |L|
  {
    if L != [] {
      var t := L[1..];
      assert Distinct(t) by {
        forall i, j | 0 <= i < j < |t| ensures t[i] != t[j] {
          assert t[i] == L[i + 1] && t[j] == L[j + 1];
        }
      }
      DistinctCard(t);
      assert ToSet(L) == {L[0]} + ToSet(t) by {
        forall v | v in ToSet(L) ensures v in {L[0]} + ToSet(t) {
          var k :| 0 <= k < |L| && L[k] == v;
          if k > 0 {
            assert t[k - 1] == v;
          }
        }
      }
      assert L[0] !in ToSet(t) by {
        forall k | 0 <= k < |t| ensures t[k] != L[0] {
          assert t[k] == L[k + 1];
        }
      }
    }
  }

  /** The position of a member of a list. */
  function IndexOf(L: seq<int>, x: int): (p: nat)
    requires x in L
    ensures p < |L| && L[p] == x
  {
    if L[0] == x then 0 else 1 + IndexOf(L[1..], x)
  }

  function Last(L: seq<int>): int
    requires |L| > 0
  {
    L[|L| - 1]
  }

  ghost predicate Distinct(L: seq<int>) {
    forall i, j :: 0 <= i < j < |L| ==> L[i] != L[j]
  }

  /** `L` is a well-formed circular list: every node's successor is the next
      element of `L` (the last one's is the first) and predecessors agree. */
  ghost predicate Ring(nx: seq<int>, pv: seq<int>, L: seq<int>) {
    && |L| > 0
    && Distinct(L)
    && (forall k :: 0 <= k < |L| ==> 0 <= L[k] < |nx| && L[k] < |pv|)
    && (forall k :: 0 <= k < |L| - 1 ==> nx[L[k]] == L[k + 1] && pv[L[k + 1]] == L[k])
    && nx[Last(L)] == L[0]
    && pv[L[0]] == Last(L)
  }

  /** A possibly empty list whose head handle is `h` (-1 for the empty list). */
  ghost predicate List(nx: seq<int>, pv: seq<int>, L: seq<int>, h: int) {
    if L == [] then h == -1 else Ring(nx, pv, L) && h == L[0]
  }

  /** The nodes whose links change when a node is spliced in before the head. */
  function Ends(L: seq<int>): set<int> {
    if L == [] then {} else {L[0], Last(L)}
  }

  /** `L` with the node at position `p` removed. */
  function Without(L: seq<int>, p: nat): (r: seq<int>)
    requires p < |L|
    ensures |r| == |L| - 1
  {
    L[..p] + L[p + 1..]
  }

  /** The order of the list that `meld(x, y)` leaves, read from `x`. */
  function MeldSeq(X: seq<int>, Y: seq<int>): (r: seq<int>)
    ensures |r| == |X| + |Y|
  {
    if X == [] then Y else if Y == [] then X else X + Y[1..] + [Y[0]]
  }

  /** A ring stays a ring when the links of its own nodes are unchanged. */
  lemma RingFrame(nx: seq<int>, pv: seq<int>, nx': seq<int>, pv': seq<int>, L: seq<int>)
    requires Ring(nx, pv, L)
    requires |nx'| == |nx| && |pv'| == |pv|
    requires forall k :: 0 <= k < |L| ==> nx'[L[k]] == nx[L[k]] && pv'[L[k]] == pv[L[k]]
    ensures Ring(nx', pv', L)
  {
  }

  lemma ListFrame(nx: seq<int>, pv: seq<int>, nx': seq<int>, pv': seq<int>, L: seq<int>, h: int)
    requires List(nx, pv, L, h)
    requires |nx'| == |nx| && |pv'| == |pv|
    requires forall k :: 0 <= k < |L| ==> nx'[L[k]] == nx[L[k]] && pv'[L[k]] == pv[L[k]]
    ensures List(nx', pv', L, h)
  {
    if L != [] {
      RingFrame(nx, pv, nx', pv', L);
    }
  }

  /** In a ring a node is its own successor exactly when it is alone. */
  lemma {:induction false} SelfLoopIffSingleton(nx: seq<int>, pv: seq<int>, L: seq<int>, p: nat)
    requires Ring(nx, pv, L) && p < |L|
    ensures nx[L[p]] == L[p] <==> |L| == 1
  {
    if |L| > 1 {
      if p < |L| - 1 {
        assert nx[L[p]] == L[p + 1];
      } else {
        assert nx[L[p]] == L[0];
      }
    }
  }

  /** Removing the node at `p` keeps every other node once and that one none. */
  lemma WithoutMembers(L: seq<int>, p: nat)
    requires Distinct(L) && p < |L|
    ensures Distinct(Without(L, p))
    ensures (set x | x in Without(L, p)) == (set x | x in L) - {L[p]}
    ensures forall x :: x in Without(L, p) <==> x in L && x != L[p]
  {
    var W := Without(L, p);
    forall x | x in W ensures x in L && x != L[p] {
      var k :| 0 <= k < |W| && W[k] == x;
      if k < p {
        assert W[k] == L[k];
      } else {
        assert W[k] == L[k + 1];
      }
    }
    forall x | x in L && x != L[p] ensures x in W {
      var k :| 0 <= k < |L| && L[k] == x;
      if k < p {
        assert W[k] == x;
      } else {
        assert W[k - 1] == x;
      }
    }
    forall i, j | 0 <= i < j < |W| ensures W[i] != W[j] {
      var i' := if i < p then i else i + 1;
      var j' := if j < p then j else j + 1;
      assert W[i] == L[i'] && W[j] == L[j'];
    }
  }

  /** Melding keeps exactly the nodes of both lists. */
  lemma MeldMembers(X: seq<int>, Y: seq<int>)
    requires Distinct(X) && Distinct(Y)
    requires forall x :: x in X ==> x !in Y
    ensures Distinct(MeldSeq(X, Y))
    ensures forall x :: x in MeldSeq(X, Y) <==> x in X || x in Y
  {
    if X != [] && Y != [] {
      var M := MeldSeq(X, Y);
      assert M == X + (Y[1..] + [Y[0]]);
      forall x | x in Y ensures x in M {
        var k :| 0 <= k < |Y| && Y[k] == x;
        if k == 0 {
          assert M[|M| - 1] == x;
        } else {
          assert M[|X| + k - 1] == x;
        }
      }
      forall i, j | 0 <= i < j < |M| ensures M[i] != M[j] {
        if j < |X| {
        } else if i < |X| {
          assert M[j] in Y;
        } else {
          var i' := if i < |M| - 1 then i - |X| + 1 else 0;
          var j' := if j < |M| - 1 then j - |X| + 1 else 0;
          assert M[i] == Y[i'] && M[j] == Y[j'];
        }
      }
    }
  }
  /** The successor and the predecessor of a node of a ring are on the ring. */
  lemma RingNeighbours(nx: seq<int>, pv: seq<int>, L: seq<int>, p: nat)
    requires Ring(nx, pv, L) && p < |L|
    ensures nx[L[p]] in L && pv[L[p]] in L
  {
    if p < |L| - 1 {
      assert nx[L[p]] == L[p + 1];
    } else {
      assert nx[L[p]] == L[0];
    }
    if p > 0 {
      assert pv[L[p - 1 + 1]] == L[p - 1];
    } else {
      assert pv[L[0]] == Last(L);
    }
  }
  lemma EndsIn(L: seq<int>)
    ensures forall e :: e in Ends(L) ==> e in L
  {
  }
  /** The neighbours of the node at position `p` of a ring. */
  function Before(L: seq<int>, p: nat): int
    requires p < |L|
  {
    if p > 0 then L[p - 1] else Last(L)
  }

  function After(L: seq<int>, p: nat): int
    requires p < |L|
  {
    if p + 1 < |L| then L[p + 1] else L[0]
  }

  lemma NeighbourLinks(nx: seq<int>, pv: seq<int>, L: seq<int>, p: nat)
    requires Ring(nx, pv, L) && p < |L|
    ensures pv[L[p]] == Before(L, p) && nx[L[p]] == After(L, p)
  {
    if p > 0 {
      assert pv[L[p - 1 + 1]] == L[p - 1];
    }
  }

  /** The nodes whose links `meld(x, y)` rewrites. */
  function MeldEnds(X: seq<int>, Y: seq<int>): set<int> {
    if X == [] || Y == [] then {} else {X[0], Last(X), Y[0], After(Y, 0)}
  }

  /** Splicing `x` in before the head `L[0]` gives the ring `[x] + L`. */
  lemma RingCons(nx: seq<int>, pv: seq<int>, nx': seq<int>, pv': seq<int>, L: seq<int>, x: int)
    requires Ring(nx, pv, L) && x !in L
    requires |nx'| == |nx| && |pv'| == |pv| && 0 <= x < |nx| && x < |pv|
    requires nx'[x] == L[0] && pv'[x] == Last(L) && nx'[Last(L)] == x && pv'[L[0]] == x
    requires forall j :: 0 <= j < |nx| && j != x && j != Last(L) ==> nx'[j] == nx[j]
    requires forall j :: 0 <= j < |pv| && j != x && j != L[0] ==> pv'[j] == pv[j]
    ensures Ring(nx', pv', [x] + L)
  {
    var M := [x] + L;
    forall k | 0 <= k < |M| - 1 ensures nx'[M[k]] == M[k + 1] && pv'[M[k + 1]] == M[k] {
      if k > 0 {
        assert M[k] == L[k - 1] && M[k + 1] == L[k];
        assert L[k - 1] != Last(L);
        assert L[k] != L[0];
      }
    }
  }

  /** Unlinking the node at `p` (whose neighbours are `a` before and `b` after)
      from a ring of two or more nodes leaves the ring `Without(L, p)`. */
  lemma RingRemove(nx: seq<int>, pv: seq<int>, nx': seq<int>, pv': seq<int>, L: seq<int>, p: nat)
    requires Ring(nx, pv, L) && p < |L| && |L| > 1
    requires |nx'| == |nx| && |pv'| == |pv|
    requires var a := Before(L, p); var b := After(L, p);
      && nx'[a] == b && pv'[b] == a
      && (forall j :: 0 <= j < |nx| && j != a && j != L[p] ==> nx'[j] == nx[j])
      && (forall j :: 0 <= j < |pv| && j != b && j != L[p] ==> pv'[j] == pv[j])
    ensures Ring(nx', pv', Without(L, p))
  {
    var n := |L|;
    var a := Before(L, p);
    var b := After(L, p);
    var W := Without(L, p);
    WithoutMembers(L, p);
    assert forall k :: 0 <= k < |W| ==> W[k] == (if k < p then L[k] else L[k + 1]);
    forall k | 0 <= k < |W| - 1 ensures nx'[W[k]] == W[k + 1] && pv'[W[k + 1]] == W[k] {
      if k + 1 < p {
        assert L[k] != a && L[k + 1] != b;
      } else if k + 1 == p {
        assert W[k] == a && W[k + 1] == b;
      } else {
        assert L[k + 1] != a && L[k + 2] != b;
      }
    }
    if p == 0 {
      assert Last(W) == a && W[0] == b;
    } else if p == n - 1 {
      assert Last(W) == a && W[0] == b;
    } else {
      assert Last(W) == L[n - 1] && W[0] == L[0];
      assert L[n - 1] != a && L[0] != b;
    }
  }

  /** `meld` of two non-empty disjoint rings gives the ring `MeldSeq(X, Y)`. */
  lemma RingMeld(nx: seq<int>, pv: seq<int>, nx': seq<int>, pv': seq<int>, X: seq<int>, Y: seq<int>)
    requires Ring(nx, pv, X) && Ring(nx, pv, Y)
    requires forall v :: v in X ==> v !in Y
    requires |nx'| == |nx| && |pv'| == |pv|
    requires var y1 := After(Y, 0);
      && nx'[Last(X)] == y1 && pv'[y1] == Last(X) && pv'[X[0]] == Y[0] && nx'[Y[0]] == X[0]
      && (forall j :: 0 <= j < |nx| && j != Last(X) && j != Y[0] ==> nx'[j] == nx[j])
      && (forall j :: 0 <= j < |pv| && j != y1 && j != X[0] ==> pv'[j] == pv[j])
    ensures Ring(nx', pv', MeldSeq(X, Y))
  {
    var M := MeldSeq(X, Y);
    MeldMembers(X, Y);
    var y1 := After(Y, 0);
    var m := |Y|;
    assert forall k :: 0 <= k < |X| ==> M[k] == X[k];
    assert forall k :: |X| <= k < |M| - 1 ==> M[k] == Y[k - |X| + 1];
    assert M[|M| - 1] == Y[0];
    forall k | 0 <= k < |M| - 1 ensures nx'[M[k]] == M[k + 1] && pv'[M[k + 1]] == M[k] {
      if k < |X| - 1 {
        assert X[k] != Last(X) && X[k] !in Y;
        assert X[k + 1] != X[0] && X[k + 1] !in Y;
      } else if k == |X| - 1 {
        assert M[k] == Last(X) && M[k + 1] == y1;
      } else {
        var i := k - |X| + 1;
        assert M[k] == Y[i] && M[k + 1] == (if i + 1 < m then Y[i + 1] else Y[0]);
        assert Y[i] != Y[0] && Y[i] !in X;
        if i + 1 < m {
          assert Y[i + 1] != y1 && Y[i + 1] !in X;
          assert nx[Y[i]] == Y[i + 1];
        } else {
          assert nx[Last(Y)] == Y[0];
          assert Y[i] == Last(Y);
        }
      }
    }
    assert Last(M) == Y[0] && M[0] == X[0];
  }
}
