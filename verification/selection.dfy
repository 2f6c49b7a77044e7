/** Which lane the controller serves. The source calls `Stream.max` with a
    comparator lambda over the lanes in map iteration order; here the lanes are
    a sequence in some fixed order and the selection is an index into it.

    `Stream.max` on a sequential stream is a left fold with
    `BinaryOperator.maxBy`, which keeps the accumulator whenever the comparator
    does not rank it strictly below the next element. The lambda answers 1 as
    soon as its first argument is starved, so it is not a consistent
    comparator, and the fold it drives serves the FIRST starved lane in order,
    not the one that has waited longest; with no lane starved it serves the
    first lane with the most queued cars. */
module Selection {
  import opened Options
  import opened Lanes
  import opened Timing

  /** `Integer.compare`. */
  function IntegerCompare(x: int, y: int): (c: int)
    ensures c < 0 <==> x < y
    ensures c == 0 <==> x == y
    ensures c > 0 <==> x > y
  {
    if x < y then -1 else if x == y then 0 else 1
  }

  /** The comparator lambda passed to `max`. */
  function Compare(l1: Lane, l2: Lane): int {
    if l1.waitingTime >= StarvationTime then 1
    else if l2.waitingTime >= StarvationTime then -1
    else IntegerCompare(l1.carCount, l2.carCount)
  }

  /** Among lanes that are not starved the lambda is a genuine comparator on
      queued cars: antisymmetric and in agreement with the counts. */
  lemma CompareOnCounts(l1: Lane, l2: Lane)
    requires !IsStarved(l1.waitingTime) && !IsStarved(l2.waitingTime)
    ensures Compare(l1, l2) == -Compare(l2, l1)
    ensures Compare(l1, l2) >= 0 <==> l1.carCount >= l2.carCount
  {
  }

  /** Two starved lanes each rank above the other, which the contract of
      `Comparator` forbids. */
  lemma CompareNotAntisymmetric(l1: Lane, l2: Lane)
    requires IsStarved(l1.waitingTime) && IsStarved(l2.waitingTime)
    ensures Compare(l1, l2) > 0 && Compare(l2, l1) > 0
  {
  }

  /** `BinaryOperator.maxBy(comparator)` applied to the accumulator `a` and the
      next element `b`, both given as indices. */
  function MaxBy(lanes: seq<Lane>, a: nat, b: nat): (r: nat)
    requires a < |lanes| && b < |lanes|
    ensures r == a || r == b
    ensures Compare(lanes[r], lanes[if r == a then b else a]) >= 0
  {
    if Compare(lanes[a], lanes[b]) >= 0 then a else b
  }

  /** The reduction of the first `n` lanes: the first lane seeds the
      accumulator, every later lane is combined by `MaxBy`. */
  function Fold(lanes: seq<Lane>, n: nat): (r: nat)
    requires 1 <= n <= |lanes|
    ensures r < n
    decreases n
  {
    if n == 1 then 0 else MaxBy(lanes, Fold(lanes, n - 1), n - 1)
  }

  ghost predicate NoneStarved(lanes: seq<Lane>, n: nat)
    requires n <= |lanes|
  {
    forall k :: 0 <= k < n ==> !IsStarved(lanes[k].waitingTime)
  }

  /** Lane `i` is the first starved lane among the first `n`. */
  ghost predicate IsFirstStarved(lanes: seq<Lane>, n: nat, i: nat)
    requires n <= |lanes|
  {
    i < n && IsStarved(lanes[i].waitingTime) && NoneStarved(lanes, i)
  }

  /** Lane `i` has the most queued cars among the first `n`, and every lane
      before it has strictly fewer. */
  ghost predicate IsFirstBusiest(lanes: seq<Lane>, n: nat, i: nat)
    requires n <= |lanes|
  {
    && i < n
    && (forall k :: 0 <= k < n ==> lanes[k].carCount <= lanes[i].carCount)
    && (forall k :: 0 <= k < i ==> lanes[k].carCount < lanes[i].carCount)
  }

  /** The selection policy the code implements, stated without the fold: the
      first starved lane if there is one, otherwise the first busiest lane. */
  ghost predicate Chosen(lanes: seq<Lane>, n: nat, i: nat)
    requires n <= |lanes|
  {
    if NoneStarved(lanes, n) then IsFirstBusiest(lanes, n, i) else IsFirstStarved(lanes, n, i)
  }

  /** The fold picks exactly the lane the policy names. */
  lemma {:induction false} FoldChosen(lanes: seq<Lane>, n: nat)
    requires 1 <= n <= |lanes|
    ensures Chosen(lanes, n, Fold(lanes, n))
    decreases n
  {
    if n > 1 {
      FoldChosen(lanes, n - 1);
      var a := Fold(lanes, n - 1);
      var b := n - 1;
      if !NoneStarved(lanes, n - 1) {
        assert IsStarved(lanes[a].waitingTime);
        assert Fold(lanes, n) == a;
      } else if IsStarved(lanes[b].waitingTime) {
        assert Compare(lanes[a], lanes[b]) == -1;
        assert Fold(lanes, n) == b;
      } else {
        assert NoneStarved(lanes, n);
        if lanes[a].carCount >= lanes[b].carCount {
          assert Fold(lanes, n) == a;
        } else {
          assert Fold(lanes, n) == b;
        }
      }
    }
  }

  /** The policy names at most one lane. */
  lemma ChosenUnique(lanes: seq<Lane>, n: nat, i: nat, j: nat)
    requires n <= |lanes|
    requires Chosen(lanes, n, i) && Chosen(lanes, n, j)
    ensures i == j
  {
    if NoneStarved(lanes, n) {
      assert lanes[i].carCount == lanes[j].carCount;
    } else {
      assert IsStarved(lanes[i].waitingTime) && IsStarved(lanes[j].waitingTime);
      assert NoneStarved(lanes, i) && NoneStarved(lanes, j);
    }
  }

  /** Lines 27-32 of the controller: the `max` of the lanes, or nothing for an
      empty lane collection. */
  function Select(lanes: seq<Lane>): (r: Option<nat>)
    ensures r.None? <==> |lanes| == 0
    ensures r.Some? ==> r.value < |lanes| && Chosen(lanes, |lanes|, r.value)
  {
    if |lanes| == 0 then None
    else
      FoldChosen(lanes, |lanes|);
      Some(Fold(lanes, |lanes|))
  }

  /** Both directions: the selected index is the one, and the only one, that
      the policy names. */
  lemma SelectCharacterized(lanes: seq<Lane>, i: nat)
    requires |lanes| > 0
    ensures Select(lanes) == Some(i) <==> i < |lanes| && Chosen(lanes, |lanes|, i)
  {
    if i < |lanes| && Chosen(lanes, |lanes|, i) {
      ChosenUnique(lanes, |lanes|, i, Select(lanes).value);
    }
  }

  /** A starved lane outranks every lane behind it, whatever their queues. */
  lemma StarvedLanePriority(lanes: seq<Lane>, i: nat)
    requires i < |lanes| && IsStarved(lanes[i].waitingTime)
    ensures Select(lanes).Some?
    ensures Select(lanes).value <= i
    ensures IsStarved(lanes[Select(lanes).value].waitingTime)
  {
    assert !NoneStarved(lanes, |lanes|);
  }

  /** The code does not prefer the longest-waiting starved lane: with two
      starved lanes it serves the first even though the second waited longer. */
  lemma FirstStarvedNotLongestWaiting()
    ensures Select([Lane("North", 0, 15), Lane("South", 0, 20)]) == Some(0)
  {
    var lanes := [Lane("North", 0, 15), Lane("South", 0, 20)];
    assert IsFirstStarved(lanes, 2, 0);
    SelectCharacterized(lanes, 0);
  }
}
