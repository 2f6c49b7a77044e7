/** One iteration of the controller's decision loop, and runs of several
    iterations with vehicle traffic in between. A cycle ticks every lane's
    waiting time, selects a lane, computes its green time, emits GREEN, YELLOW
    and RED for that lane's light only, and resets the lane's waiting time. */
module Controller {
  import opened Options
  import opened Lanes
  import opened Timing
  import opened Phases
  import opened Selection

  /** The fairness tick: every lane, selected or not, waits one more cycle. */
  function Tick(lanes: seq<Lane>): (r: seq<Lane>)
    ensures |r| == |lanes|
    ensures forall i :: 0 <= i < |r| ==> r[i].waitingTime == lanes[i].waitingTime + 1
    ensures forall i :: 0 <= i < |r| ==> r[i].name == lanes[i].name && r[i].carCount == lanes[i].carCount
  {
    seq(|lanes|, i requires 0 <= i < |lanes| => IncrementWaitingTime(lanes[i]))
  }

  ghost predicate AllValid(lanes: seq<Lane>) {
    forall i :: 0 <= i < |lanes| ==> Valid(lanes[i])
  }

  /** What one cycle leaves behind: the lanes, the index served, its green
      time and the events sent to the lights. */
  datatype Cycle = Cycle(lanes: seq<Lane>, served: nat, greenTime: nat, trace: seq<Event>)

  /** One pass of the loop body. With no lanes at all `max` finds nothing, the
      fallback lookup gives `null` and the loop thread dies on the next line:
      that is the `None` case. */
  function RunCycle(lanes: seq<Lane>): (r: Option<Cycle>)
    ensures r.None? <==> |lanes| == 0
    ensures r.Some? ==> |r.value.lanes| == |lanes| && r.value.served < |lanes|
    // the selection is made on the ticked waiting times
    ensures r.Some? ==> Chosen(Tick(lanes), |lanes|, r.value.served)
    // green time: by queue length within [2, 8], or 5 for a starved lane
    ensures r.Some? ==> MinGreen <= r.value.greenTime <= MaxGreen
    ensures r.Some? && IsStarved(lanes[r.value.served].waitingTime + 1) ==>
              r.value.greenTime == MinGreen + StarvationBonus
    ensures r.Some? && !IsStarved(lanes[r.value.served].waitingTime + 1) ==>
              r.value.greenTime == Clamp(2 * lanes[r.value.served].carCount, MinGreen, MaxGreen)
    // only the served lane's light is driven, GREEN then YELLOW then RED
    ensures r.Some? ==> IsServiceTrace(r.value.trace, lanes[r.value.served].name)
    ensures r.Some? ==> r.value.trace[0].hold == r.value.greenTime
    // afterwards: served lane reset, every other lane one cycle older, no queue touched
    ensures r.Some? ==> r.value.lanes[r.value.served].waitingTime == 0
    ensures r.Some? ==> forall i :: 0 <= i < |lanes| && i != r.value.served ==>
              r.value.lanes[i].waitingTime == lanes[i].waitingTime + 1
    ensures r.Some? ==> forall i :: 0 <= i < |lanes| ==>
              r.value.lanes[i].carCount == lanes[i].carCount && r.value.lanes[i].name == lanes[i].name
    ensures r.Some? && AllValid(lanes) ==> AllValid(r.value.lanes)
  {
    var ticked := Tick(lanes);
    match Select(ticked)
    case None => None
    case Some(s) =>
      var selected := ticked[s];
      var greenTime := ControllerGreenTime(selected.carCount, selected.waitingTime);
      Some(Cycle(ticked[s := ResetWaitingTime(selected)], s, greenTime, PhaseTrace(selected.name, greenTime)))
  }

  /** A car arriving at, or leaving, the lane at a given position. A position
      outside the lanes changes nothing. */
  datatype Traffic = Traffic(lane: nat, feed: Feed)

  function ApplyTraffic(lanes: seq<Lane>, ts: seq<Traffic>): (r: seq<Lane>)
    ensures |r| == |lanes|
    ensures forall i :: 0 <= i < |r| ==> r[i].name == lanes[i].name && r[i].waitingTime == lanes[i].waitingTime
    ensures AllValid(lanes) ==> AllValid(r)
    decreases |ts|
  {
    if |ts| == 0 then lanes
    else
      var t := ts[0];
      var next := if t.lane < |lanes| then lanes[t.lane := ApplyOne(lanes[t.lane], t.feed)] else lanes;
      ApplyTraffic(next, ts[1..])
  }

  /** `w` is the waiting time a lane `i` should have after the cycles that
      served `served` in order, having started at `w0`: its initial time plus
      one per cycle if it was never served, otherwise the number of cycles
      since its last service. */
  ghost predicate WaitMatches(served: seq<nat>, i: nat, w: int, w0: int) {
    && ((forall k :: 0 <= k < |served| ==> served[k] != i) ==> w == w0 + |served|)
    && (forall k :: 0 <= k < |served| && served[k] == i && LastFrom(served, i, k) ==> w == |served| - 1 - k)
  }

  /** No entry after position `k` is `i`. */
  ghost predicate LastFrom(served: seq<nat>, i: nat, k: nat) {
    forall m :: k < m < |served| ==> served[m] != i
  }

  /** The waiting time a lane `i` that started at `w0` has after cycles that
      served the lanes `served` in order, one cycle at a time. */
  function ExpectedWait(served: seq<nat>, i: nat, w0: int): int
    decreases |served|
  {
    if |served| == 0 then w0
    else if served[|served| - 1] == i then 0
    else ExpectedWait(served[..|served| - 1], i, w0) + 1
  }

  /** One more cycle: the served lane's count restarts at zero, every other
      lane's grows by one. */
  lemma ExpectedWaitAppend(served: seq<nat>, x: nat, i: nat, w0: int)
    ensures ExpectedWait(served + [x], i, w0) == if x == i then 0 else ExpectedWait(served, i, w0) + 1
  {
    assert (served + [x])[..|served|] == served;
  }

  /** Lifts `ExpectedWaitAppend` to all lanes: if every lane's waiting time is
      its cycle-by-cycle count before a cycle serving `s`, it still is after. */
  lemma ExpectedWaitsAfterCycle(init: seq<Lane>, before: seq<Lane>, after: seq<Lane>, served: seq<nat>, s: nat)
    requires |before| == |init| && |after| == |init|
    requires forall i :: 0 <= i < |init| ==> before[i].waitingTime == ExpectedWait(served, i, init[i].waitingTime)
    requires forall i :: 0 <= i < |init| ==>
               after[i].waitingTime == if i == s then 0 else before[i].waitingTime + 1
    ensures forall i :: 0 <= i < |init| ==> after[i].waitingTime == ExpectedWait(served + [s], i, init[i].waitingTime)
  {
    forall i | 0 <= i < |init|
      ensures after[i].waitingTime == ExpectedWait(served + [s], i, init[i].waitingTime)
    {
      ExpectedWaitAppend(served, s, i, init[i].waitingTime);
    }
  }

  /** The cycle-by-cycle count agrees with the closed form: initial time plus
      one per cycle when never served, cycles since the last service otherwise. */
  lemma {:induction false} ExpectedWaitClosedForm(served: seq<nat>, i: nat, w0: int)
    ensures WaitMatches(served, i, ExpectedWait(served, i, w0), w0)
    decreases |served|
  {
    if |served| > 0 {
      var prev := served[..|served| - 1];
      var x := served[|served| - 1];
      ExpectedWaitClosedForm(prev, i, w0);
      assert served == prev + [x];
      WaitMatchesStep(prev, x, i, ExpectedWait(prev, i, w0), w0);
    }
  }

  /** One more cycle serving `x` keeps the closed form right: reset if `x` is
      the lane, one more otherwise. */
  lemma WaitMatchesStep(served: seq<nat>, x: nat, i: nat, w: int, w0: int)
    requires WaitMatches(served, i, w, w0)
    ensures WaitMatches(served + [x], i, if x == i then 0 else w + 1, w0)
  {
    var s := served + [x];
    if x == i {
      assert s[|served|] == i;
      assert forall k :: 0 <= k < |served| ==> !LastFrom(s, i, k);
    } else {
      forall k | 0 <= k < |s| && s[k] == i && LastFrom(s, i, k)
        ensures w + 1 == |s| - 1 - k
      {
        assert k < |served| && served[k] == i;
        assert LastFrom(served, i, k) by {
          forall m | k < m < |served| ensures served[m] != i {
            assert s[m] == served[m];
          }
        }
      }
      if forall k :: 0 <= k < |s| ==> s[k] != i {
        forall k | 0 <= k < |served| ensures served[k] != i {
          assert s[k] == served[k];
        }
      }
    }
  }

  /** The lanes after a cycle that served index `s` of `before`: every lane
      ticked, then lane `s` reset. */
  ghost predicate CycleAfter(before: seq<Lane>, s: nat, after: seq<Lane>) {
    s < |before| && after == Tick(before)[s := ResetWaitingTime(Tick(before)[s])]
  }

  /** Cycle `k` of a run: after the traffic `rounds[k]` arrives at the lanes
      `states[k]`, the cycle serves the policy's choice `served[k]` on the
      ticked lanes and leaves `states[k + 1]`. */
  ghost predicate RoundStep(before: seq<Lane>, traffic: seq<Traffic>, s: nat, after: seq<Lane>) {
    var mid := ApplyTraffic(before, traffic);
    && s < |mid|
    && Chosen(Tick(mid), |mid|, s)
    && CycleAfter(mid, s, after)
  }

  /** Every one of the first `j` cycles is a `RoundStep`. */
  ghost predicate RoundSteps(states: seq<seq<Lane>>, rounds: seq<seq<Traffic>>, served: seq<nat>, j: nat) {
    && j < |states| && j <= |rounds| && j <= |served|
    && forall k :: 0 <= k < j ==> RoundStep(states[k], rounds[k], served[k], states[k + 1])
  }

  /** Appending one more cycle to a run keeps every earlier cycle as it was. */
  lemma RoundStepsExtend(states: seq<seq<Lane>>, rounds: seq<seq<Traffic>>, served: seq<nat>, j: nat,
                         s: nat, next: seq<Lane>)
    requires |states| == j + 1 && |served| == j && j < |rounds|
    requires RoundSteps(states, rounds, served, j)
    requires RoundStep(states[j], rounds[j], s, next)
    ensures RoundSteps(states + [next], rounds, served + [s], j + 1)
  {
    var states', served' := states + [next], served + [s];
    forall k | 0 <= k < j + 1
      ensures RoundStep(states'[k], rounds[k], served'[k], states'[k + 1])
    {
      if k < j {
        assert states'[k] == states[k] && states'[k + 1] == states[k + 1] && served'[k] == served[k];
      }
    }
  }

  /** One pass of the loop body as the loop sees it: the lane served is the
      policy's choice on the ticked lanes, and afterwards that lane is reset,
      every other lane is a cycle older, and no queue changes. Whatever its
      waiting time before, the lane first in the iteration order is below the
      threshold afterwards: once ticked to the threshold or past it, it is the
      first starved lane, so it is the one served. */
  method Serve(lanes: seq<Lane>) returns (next: seq<Lane>, served: nat)
    requires |lanes| > 0
    ensures |next| == |lanes| && served < |lanes|
    ensures Chosen(Tick(lanes), |lanes|, served)
    ensures CycleAfter(lanes, served, next)
    ensures forall i :: 0 <= i < |lanes| ==> next[i].name == lanes[i].name && next[i].carCount == lanes[i].carCount
    ensures forall i :: 0 <= i < |lanes| ==>
              next[i].waitingTime == if i == served then 0 else lanes[i].waitingTime + 1
    ensures AllValid(lanes) ==> AllValid(next)
    ensures next[0].waitingTime < StarvationTime
  {
    var c := RunCycle(lanes).value;
    if lanes[0].waitingTime + 1 >= StarvationTime {
      var ticked := Tick(lanes);
      assert !NoneStarved(ticked, |lanes|);
      assert IsFirstStarved(ticked, |lanes|, c.served);
    }
    next, served := c.lanes, c.served;
  }

  /** A finite stretch of the controller's endless loop: before cycle `j` the
      traffic `rounds[j]` arrives, then one cycle runs. Returns the lanes at the
      end and the lane served in each cycle; `states[j]` is the lanes at the
      start of cycle `j`. Each cycle serves the policy's choice on its ticked
      lanes. Waiting times count decision cycles: a lane never served has
      waited its initial time plus one per cycle, and a lane last served in
      cycle `k` has waited exactly the cycles since. The lane first in the
      iteration order is below the threshold after every cycle, so at the end
      of a run with at least one cycle, or of any run if it starts below. */
  method RunCycles(lanes: seq<Lane>, rounds: seq<seq<Traffic>>)
    returns (final: seq<Lane>, served: seq<nat>, ghost states: seq<seq<Lane>>)
    requires |lanes| > 0
    ensures |final| == |lanes| && |served| == |rounds|
    ensures |states| == |rounds| + 1 && states[0] == lanes && states[|rounds|] == final
    ensures forall k :: 0 <= k < |served| ==> served[k] < |lanes|
    ensures RoundSteps(states, rounds, served, |rounds|)
    ensures forall i :: 0 <= i < |lanes| ==> final[i].name == lanes[i].name
    ensures forall i :: 0 <= i < |lanes| ==> WaitMatches(served, i, final[i].waitingTime, lanes[i].waitingTime)
    ensures AllValid(lanes) ==> AllValid(final)
    ensures lanes[0].waitingTime < StarvationTime || |rounds| > 0 ==> final[0].waitingTime < StarvationTime
  {
    final, served, states := lanes, [], [lanes];
    var j := 0;
    while j < |rounds|
      invariant j <= |rounds|
      invariant |final| == |lanes| && |served| == j
      invariant |states| == j + 1 && states[0] == lanes && states[j] == final
      invariant forall k :: 0 <= k < j ==> served[k] < |lanes|
      invariant RoundSteps(states, rounds, served, j)
      invariant forall i :: 0 <= i < |lanes| ==> final[i].name == lanes[i].name
      invariant forall i :: 0 <= i < |lanes| ==> final[i].waitingTime == ExpectedWait(served, i, lanes[i].waitingTime)
      invariant AllValid(lanes) ==> AllValid(final)
      invariant lanes[0].waitingTime < StarvationTime || j > 0 ==> final[0].waitingTime < StarvationTime
    {
      var mid := ApplyTraffic(final, rounds[j]);
      var next, s := Serve(mid);
      assert ApplyTraffic(states[j], rounds[j]) == mid;
      assert RoundStep(states[j], rounds[j], s, next);
      RoundStepsExtend(states, rounds, served, j, s, next);
      ExpectedWaitsAfterCycle(lanes, mid, next, served, s);
      final, served, states := next, served + [s], states + [next];
      j := j + 1;
    }
    forall i | 0 <= i < |lanes|
      ensures WaitMatches(served, i, final[i].waitingTime, lanes[i].waitingTime)
    {
      ExpectedWaitClosedForm(served, i, lanes[i].waitingTime);
    }
  }

  /** One cycle over a waiting lane and a starved lane: the run serves the
      starved one. */
  lemma RunServesStarvedLane(final: seq<Lane>, served: seq<nat>, states: seq<seq<Lane>>)
    requires |states| == 2 && states[0] == [Lane("North", 0, 0), Lane("South", 0, 20)]
    requires RoundSteps(states, [[]], served, 1)
    ensures served[0] == 1
  {
    assert RoundStep(states[0], [], served[0], states[1]);
    var ticked := Tick(ApplyTraffic(states[0], []));
    assert IsFirstStarved(ticked, 2, 1);
    ChosenUnique(ticked, 2, 1, served[0]);
  }

  /** Four idle lanes, none starved: the first lane is served for the minimum
      green time. */
  lemma IdleLanesServeFirst()
    ensures var lanes := [NewLane("North"), NewLane("South"), NewLane("East"), NewLane("West")];
      RunCycle(lanes).Some? && RunCycle(lanes).value.served == 0 && RunCycle(lanes).value.greenTime == MinGreen
  {
    var lanes := [NewLane("North"), NewLane("South"), NewLane("East"), NewLane("West")];
    var ticked := Tick(lanes);
    assert NoneStarved(ticked, 4) && IsFirstBusiest(ticked, 4, 0);
    ChosenUnique(ticked, 4, 0, RunCycle(lanes).value.served);
  }

  /** A starved lane with an empty queue beats a busy lane that is not starved,
      and gets the fixed five-second slot. */
  lemma StarvationOverridesCount()
    ensures var lanes := [Lane("North", 10, 0), Lane("South", 0, 0), Lane("East", 0, 0), Lane("West", 0, 14)];
      RunCycle(lanes).Some? && RunCycle(lanes).value.served == 3 && RunCycle(lanes).value.greenTime == 5
  {
    var lanes := [Lane("North", 10, 0), Lane("South", 0, 0), Lane("East", 0, 0), Lane("West", 0, 14)];
    var ticked := Tick(lanes);
    assert IsFirstStarved(ticked, 4, 3);
    ChosenUnique(ticked, 4, 3, RunCycle(lanes).value.served);
  }
}
