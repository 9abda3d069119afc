/** The path of a cascading `cut`, stated over the parent fields `P`, the
    marks `M` and the ghost ranks `H` of the arena. Cutting `x` from its
    parent `p` flips `p`'s mark; when that leaves `p` unmarked and `p` has a
    parent itself, `p` is cut in turn. */
module CascadingCut {
  import opened CircularList

  /** `C` backwards: the nodes cut, in the order they end up on the root
      ring. */
  function Reversed(C: seq<int>): (r: seq<int>)
    ensures |r| == |C| && forall k :: 0 <= k < |C| ==> r[k] == C[|C| - 1 - k]
  {
    if C == [] then [] else Reversed(C[1..]) + [C[0]]
  }

  /** Cutting `x` and then the nodes `C` leaves them in front of the root
      ring `L` in the reverse order. */
  lemma ReversedCons(x: int, C: seq<int>, L: seq<int>)
    ensures Reversed([x] + C) + L == Reversed(C) + ([x] + L)
  {
    assert ([x] + C)[1..] == C;
  }

  /** The nodes `C` were cut in this order, from `P` and `M` to `P'` and
      `M'`: it is a cascade path of `P` and `M`, and the cut had the effect
      `Effect` describes. */
  ghost predicate Cascade(P: seq<int>, M: seq<bool>, H: seq<int>, C: seq<int>, P': seq<int>, M': seq<bool>) {
    Path(P, M, H, C) && Effect(P, M, C, P', M')
  }

  /** Each node of `C` had a parent and was cut from it; every later one is
      the parent of the one before and was marked when the cut reached it;
      the cascade stopped at the parent of the last, which was unmarked or a
      root. Ranks grow along the path. */
  ghost predicate Path(P: seq<int>, M: seq<bool>, H: seq<int>, C: seq<int>) {
    && |M| == |P| && |H| == |P|
    && |C| > 0
    && (forall k :: 0 <= k < |C| ==> 0 <= C[k] < |P| && 0 <= P[C[k]] < |P|)
    && (forall k :: 0 < k < |C| ==> C[k] == P[C[k - 1]] && M[C[k]] && H[C[0]] < H[C[k]])
    && H[C[0]] < H[P[Last(C)]]
    && !(M[P[Last(C)]] && P[P[Last(C)]] != -1)
  }

  /** The nodes cut became roots, the later ones end unmarked, the mark of
      the node where the cascade stopped flipped, and nothing else changed. */
  ghost predicate Effect(P: seq<int>, M: seq<bool>, C: seq<int>, P': seq<int>, M': seq<bool>) {
    && |C| > 0 && 0 <= Last(C) < |P| && |M| == |P| && |P'| == |P| && |M'| == |P|
    && 0 <= P[Last(C)] < |P|
    && (forall j :: 0 <= j < |P| ==> P'[j] == if j in C then -1 else P[j])
    && (forall j :: 0 <= j < |P| ==> M'[j] == if j == P[Last(C)] then !M[j] else if j in C[1..] then false else M[j])
  }

  /** A cut that does not cascade: `x` leaves `p`, whose mark flips. */
  lemma CascadeStop(P: seq<int>, M: seq<bool>, H: seq<int>, x: int, p: int)
    requires |M| == |P| && |H| == |P|
    requires 0 <= x < |P| && p == P[x] && 0 <= p < |P| && H[x] < H[p]
    requires !(M[p] && P[p] != -1)
    ensures Cascade(P, M, H, [x], P[x := -1], M[p := !M[p]])
  {
    assert [x][1..] == [];
  }

  /** A cut that cascades: `x` leaves `p`, which was marked and has a
      parent, and the cut of `p` from the state that leaves runs along `C`. */
  lemma CascadeMore(P: seq<int>, M: seq<bool>, H: seq<int>, x: int, p: int, C: seq<int>, P': seq<int>, M': seq<bool>)
    requires |M| == |P| && |H| == |P|
    requires 0 <= x < |P| && p == P[x] && 0 <= p < |P| && H[x] < H[p]
    requires M[p] && P[p] != -1
    requires Cascade(P[x := -1], M[p := !M[p]], H, C, P', M') && C[0] == p
    ensures Cascade(P, M, H, [x] + C, P', M')
  {
    PathMore(P, M, H, x, p, C);
    EffectMore(P, M, x, p, C, P', M');
  }

  /** The path part of `CascadeMore`, and the facts that keep the nodes of
      the path apart. */
  lemma PathMore(P: seq<int>, M: seq<bool>, H: seq<int>, x: int, p: int, C: seq<int>)
    requires |M| == |P| && |H| == |P|
    requires 0 <= x < |P| && p == P[x] && 0 <= p < |P| && H[x] < H[p]
    requires M[p] && P[p] != -1
    requires Path(P[x := -1], M[p := !M[p]], H, C) && C[0] == p
    ensures Path(P, M, H, [x] + C)
    ensures x !in C && p !in C[1..] && P[Last(C)] != p && P[Last(C)] != x
  {
    var P1, M1 := P[x := -1], M[p := !M[p]];
    var C' := [x] + C;
    assert x !in C by {
      forall k | 0 <= k < |C| ensures C[k] != x {
        if k > 0 {
          assert H[p] < H[C[k]];
        }
      }
    }
    assert p !in C[1..] by {
      forall k | 1 <= k < |C| ensures C[k] != p {
        assert H[p] < H[C[k]];
      }
    }
    assert Last(C') == Last(C);
    assert P1[Last(C)] == P[Last(C)];
    forall k | 0 <= k < |C'| ensures 0 <= C'[k] < |P| && 0 <= P[C'[k]] < |P| {
      if k > 0 {
        assert C'[k] == C[k - 1];
      }
    }
    forall k | 0 < k < |C'| ensures C'[k] == P[C'[k - 1]] && M[C'[k]] && H[C'[0]] < H[C'[k]] {
      if k > 1 {
        assert C'[k] == C[k - 1] && C'[k - 1] == C[k - 2];
        assert C[k - 1] != p;
      }
    }
  }

  /** The effect part of `CascadeMore`. */
  lemma EffectMore(P: seq<int>, M: seq<bool>, x: int, p: int, C: seq<int>, P': seq<int>, M': seq<bool>)
    requires |M| == |P| && 0 <= x < |P| && 0 <= p < |P| && M[p]
    requires Effect(P[x := -1], M[p := !M[p]], C, P', M')
    requires x !in C && p !in C[1..] && C[0] == p && P[Last(C)] != p && P[Last(C)] != x
    ensures Effect(P, M, [x] + C, P', M')
  {
    var C' := [x] + C;
    assert Last(C') == Last(C);
    assert C'[1..] == C;
    forall j | 0 <= j < |P| ensures P'[j] == if j in C' then -1 else P[j] {
    }
    forall j | 0 <= j < |P| ensures M'[j] == if j == P[Last(C')] then !M[j] else if j in C'[1..] then false else M[j] {
    }
  }
}
