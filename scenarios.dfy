/** The three tests in `index_fibonacci_min_pq_test.go`, stated as methods
    whose postconditions are the tests' expectations. Keys are scaled by 100
    so that they are integers: 0.1 is 10, 0.01 is 1. */
module Scenarios {
  import opened Errors
  import opened FibonacciHeap

  /** `TestInsert`: two inserts into a queue for 10 indices succeed, after
      which the queue holds two keys and is not empty. */
  method InsertTwo() returns (r1: Outcome, r2: Outcome, n: int, empty: bool)
    ensures r1 == Pass && r2 == Pass && n == 2 && !empty
  {
    var q := NewIndexFibonacciMinPQ(10);
    var pq := q.value;
    r1 := pq.Insert(2, 100);
    r2 := pq.Insert(1, 200);
    n := pq.Len();
    empty := pq.IsEmpty();
  }

  /** Lowering a key to a tie with the minimum's keeps the old minimum:
      Insert(0, 5), Insert(1, 7), DecreaseKey(1, 5) leaves index 0 as the
      minimum. */
  method DecreaseToTie() returns (r: Outcome, m: Result<int>)
    ensures r == Pass && m == Ok(0)
  {
    var q := NewIndexFibonacciMinPQ(2);
    var pq := q.value;
    r := pq.Insert(0, 5);
    r := pq.Insert(1, 7);
    r := pq.DecreaseKey(1, 5);
    m := pq.MinIndex();
  }

  /** The indices of the two tests below, in the order they are inserted;
      the key of index `j` is `10 * j`. */
  const Order: seq<int> := [1, 4, 9, 2, 3, 5, 7, 8, 6]

  /** The contents after inserting the indices of `s`, in order. */
  ghost function Tens(s: seq<int>): map<int, int> {
    if s == [] then map[] else Tens(s[..|s| - 1])[s[|s| - 1] := 10 * s[|s| - 1]]
  }

  /** The contents once the indices `lo .. 9` are in the queue. */
  ghost function Upper(lo: int): map<int, int> {
    map j | lo <= j <= 9 :: 10 * j
  }

  /** Inserting `Order` gives the indices 1 to 9. */
  lemma OrderFills()
    ensures Tens(Order) == Upper(1)
  {
    TensKeys(Order);
    forall j | 1 <= j <= 9 ensures j in Order {
      assert Order[0] == 1 && Order[3] == 2 && Order[4] == 3 && Order[1] == 4 && Order[5] == 5;
      assert Order[8] == 6 && Order[6] == 7 && Order[7] == 8 && Order[2] == 9;
    }
  }

  /** One more index of `Order`, not inserted before. */
  lemma OrderStep(t: int)
    requires 0 <= t < |Order|
    ensures 0 <= Order[t] < 10 && Order[t] !in Tens(Order[..t])
    ensures Tens(Order[..t + 1]) == Tens(Order[..t])[Order[t] := 10 * Order[t]]
  {
    assert Order[..t + 1][..t] == Order[..t];
    TensKeys(Order[..t]);
  }

  /** The indices of `Tens(s)` are those of `s`. */
  lemma {:induction false} TensKeys(s: seq<int>)
    ensures forall j :: j in Tens(s) <==> j in s
    ensures forall j :: j in Tens(s) ==> Tens(s)[j] == 10 * j
  {
    if s != [] {
      TensKeys(s[..|s| - 1]);
      assert s == s[..|s| - 1] + [s[|s| - 1]];
    }
  }

  /** A fresh queue for 10 indices into which every index of `Order` was
      inserted without an error. */
  method Filled() returns (pq: FibonacciHeap.IndexFibonacciMinPQ, ok: bool)
    ensures fresh(pq.Repr) && pq.Valid() && pq.max == 10
    ensures pq.Contents == Upper(1) && |pq.Contents| == 9 && ok
  {
    var q := NewIndexFibonacciMinPQ(10);
    pq := q.value;
    ok := true;
    var t := 0;
    while t < |Order|
      invariant 0 <= t <= |Order| && ok
      invariant fresh(pq.Repr) && pq.Valid() && pq.max == 10
      invariant pq.Contents == Tens(Order[..t]) && |pq.Contents| == t
    {
      OrderStep(t);
      var e := pq.Insert(Order[t], 10 * Order[t]);
      ok := ok && e == Pass;
      t := t + 1;
    }
    assert Order[..t] == Order;
    OrderFills();
  }

  /** The indices `1 .. n`, in order. */
  ghost function Count(n: nat): seq<int> {
    seq(n, k => k + 1)
  }

  /** `Count` grows by one index at a time, up to the nine of the tests. */
  lemma CountStep(n: nat)
    ensures Count(n) + [n + 1] == Count(n + 1)
    ensures Count(9) == [1, 2, 3, 4, 5, 6, 7, 8, 9]
  {
  }

  /** `DelMin` on the contents `Upper(lo)` returns `lo` and leaves
      `Upper(lo + 1)`. */
  lemma UpperDrop(lo: int, C: map<int, int>, x: int)
    requires C == Upper(lo) && x in C
    requires forall j :: j in C ==> C[x] <= C[j]
    ensures x == lo <= 9 && C - {x} == Upper(lo + 1)
  {
    assert lo in C;
  }

  /** `DelMin` after lowering the key of `lo` to 1 in `Upper(lo)` returns
      `lo` and leaves `Upper(lo + 1)`. */
  lemma LoweredDrop(lo: int, C: map<int, int>, x: int)
    requires 1 <= lo && C == Upper(lo)[lo := 1] && x in C
    requires forall j :: j in C ==> C[x] <= C[j]
    ensures x == lo && C - {x} == Upper(lo + 1)
  {
    assert lo in C && C[lo] == 1;
    assert x == lo;
    assert C - {x} == Upper(lo) - {lo};
    assert Upper(lo) - {lo} == Upper(lo + 1);
  }

  /** `Upper(lo)` is empty exactly when `lo` is past 9. */
  lemma UpperEmpty(lo: int)
    ensures Upper(lo) == map[] <==> lo > 9
  {
    if lo <= 9 {
      assert 9 in Upper(lo);
    }
  }

  /** `TestInsertAndDelMin`: after the inserts the queue holds nine keys,
      and `DelMin` returns the indices in the order of their keys, 1 to 9,
      until the queue is empty. */
  method DrainInOrder() returns (ok: bool, n: int, out: seq<int>)
    ensures ok && n == 9 && out == [1, 2, 3, 4, 5, 6, 7, 8, 9]
  {
    var pq;
    pq, ok := Filled();
    n := pq.Len();
    out := Drain(pq);
    CountStep(9);
  }

  /** The `DelMin` loop of `TestInsertAndDelMin`. */
  method Drain(pq: FibonacciHeap.IndexFibonacciMinPQ) returns (out: seq<int>)
    requires pq.Valid() && pq.Contents == Upper(1)
    modifies pq.Repr
    ensures out == Count(9)
  {
    out := [];
    var n := 0;
    while !pq.IsEmpty()
      invariant pq.Valid()
      invariant 0 <= n <= 9 && pq.Contents == Upper(n + 1) && out == Count(n)
      decreases 9 - n
    {
      ghost var C := pq.Contents;
      var r := pq.DelMin();
      UpperDrop(n + 1, C, r.value);
      CountStep(n);
      out := out + [r.value];
      n := n + 1;
    }
    UpperEmpty(n + 1);
  }

  /** `TestDecreaseKey`: lowering the key of index `i + 1` to 1 succeeds and
      makes it the one smallest key, so the next `DelMin` returns it. */
  method DecreaseThenDelete() returns (ok: bool, out: seq<int>)
    ensures ok && out == [1, 2, 3, 4, 5, 6, 7, 8, 9]
  {
    var pq;
    pq, ok := Filled();
    out := [];
    var i := 0;
    while i < 9
      invariant 0 <= i <= 9 && ok
      invariant fresh(pq.Repr) && pq.Valid() && pq.max == 10
      invariant pq.Contents == Upper(i + 1) && out == Count(i)
    {
      assert i + 1 in Upper(i + 1);
      var e := pq.DecreaseKey(i + 1, 1);
      ok := ok && e == Pass;
      ghost var C := pq.Contents;
      var r := pq.DelMin();
      LoweredDrop(i + 1, C, r.value);
      CountStep(i);
      out := out + [r.value];
      i := i + 1;
    }
    CountStep(9);
  }
}
