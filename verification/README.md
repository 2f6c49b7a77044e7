# Smart traffic light: the scheduling core

A Dafny model of the decision loop of a single-intersection traffic-light
controller (Java, package `com.smarttraffic`). Each lane (`Lane`) keeps a
queued-car count and a waiting time. The controller (`SignalController`)
repeats a decision cycle forever:

1. tick every lane's waiting time;
2. select a lane: the first starved lane, otherwise the busiest;
3. compute that lane's green time;
4. drive only that lane's light GREEN, then YELLOW, then RED;
5. reset the lane's waiting time.

`TrafficSignal.run` serves one lane with the same green-time rule and the
same phase sequence.

Modules:

- `Lanes` (`lanes.dfy`): the lane record, its counter operations, and
  arbitrary arrival/departure feeds.
- `Timing` (`timing.dfy`): the constants `MIN_GREEN = 2`, `MAX_GREEN = 8`,
  `STARVATION_TIME = 15`, the yellow hold of 2 s and the starvation slot
  `MIN_GREEN + 3`; the green-time rule in both of its spellings.
- `Phases` (`phases.dfy`): the `Green | Yellow | Red` phase, the events sent
  to a light, each carrying the time the loop then sleeps, and a map of
  lights keyed by lane name.
- `Selection` (`selection.dfy`): the comparator lambda and `Stream.max`.
  `Stream.max` is written out as the left fold with `BinaryOperator.maxBy`
  that a sequential stream performs. The module also gives an independent
  statement of the policy that this fold implements.
- `Controller` (`controller.dfy`): one loop iteration as a pure function,
  and runs of many iterations with vehicle traffic between them.
- `Signal` (`signal.dfy`): `TrafficSignal.run`.
- `Options` (`options.dfy`): an optional value.

Lanes are a `seq<Lane>` in a fixed but arbitrary order. That order stands for
the unspecified `HashMap` iteration order. The selected lane is an index into
this sequence.

Three points about the code itself:

- **Which starved lane is served.** The comparator returns 1 whenever its first
  argument is starved, so it is not a valid comparator
  (`Selection.CompareNotAntisymmetric`). The `maxBy` fold therefore serves the
  first starved lane in iteration order, not the one that has waited longest
  (`Selection.FirstStarvedNotLongestWaiting`).
- **Units of the waiting time.** The `// seconds` comment on `STARVATION_TIME`
  (`SignalController.java` line 15) is wrong. `waitingTime` counts decision
  cycles (`Controller.RunCycles`).
- **Empty lane map.** An empty lane map ends the loop thread with a
  `NullPointerException` at line 34: `max` finds nothing, and the
  `orElse(lanes.get("North"))` fallback yields `null`. `Controller.RunCycle`
  returns `None` for this case.

## Model

| member | source | states |
|---|---|---|
| Lanes.NewLane | Traffic_System/smart-traffic-light/src/main/java/com/smarttraffic/model/Lane.java:8-12 | a new lane carries the given name and starts with zero cars and zero waiting time, so it is valid |
| Lanes.AddCar | Traffic_System/smart-traffic-light/src/main/java/com/smarttraffic/model/Lane.java:16 | one more car; name and waiting time unchanged; validity preserved |
| Lanes.RemoveCar | Traffic_System/smart-traffic-light/src/main/java/com/smarttraffic/model/Lane.java:17 | one car fewer when the count is positive, otherwise the lane is unchanged; validity preserved, so the count never goes negative |
| Lanes.IncrementWaitingTime | Traffic_System/smart-traffic-light/src/main/java/com/smarttraffic/model/Lane.java:20 | waiting time up by exactly one; car count and name unchanged |
| Lanes.ResetWaitingTime | Traffic_System/smart-traffic-light/src/main/java/com/smarttraffic/model/Lane.java:21 | waiting time becomes zero; car count and name unchanged |
| Lanes.AddThenRemove | Traffic_System/smart-traffic-light/src/main/java/com/smarttraffic/model/Lane.java:16-17 | for any lane whose count is not negative, adding then removing a car restores the lane |
| Lanes.ResetIdempotent | Traffic_System/smart-traffic-light/src/main/java/com/smarttraffic/model/Lane.java:21 | resetting twice equals resetting once |
| Lanes.FeedBounds | Traffic_System/smart-traffic-light/src/main/java/com/smarttraffic/model/Lane.java:16-17 | after any sequence of arrivals and departures, the count lies between start+arrivals-departures and start+arrivals and is never negative; name and waiting time never change |
| Lanes.FeedKeepsValid | Traffic_System/smart-traffic-light/src/main/java/com/smarttraffic/model/Lane.java:16-17 | a valid lane stays valid under any feed |
| Timing.Clamp | Traffic_System/smart-traffic-light/src/main/java/com/smarttraffic/controller/SignalController.java:37 | `min(max(x, lo), hi)` lies in [lo, hi], equals x inside the range, and equals the nearer bound outside it |
| Timing.ControllerGreenTime | Traffic_System/smart-traffic-light/src/main/java/com/smarttraffic/controller/SignalController.java:37-38 | green time always lies in [2, 8]; a starved lane gets exactly MIN_GREEN+3 = 5 whatever its queue; otherwise it is 2 for at most one car, twice the count for 1..4 cars, and 8 from 4 cars on |
| Timing.SignalGreenTime | Traffic_System/smart-traffic-light/src/main/java/com/smarttraffic/model/TrafficSignal.java:22-23 | the literal-constant rule lies in [2, 8] and gives 5 once the waiting time reaches 15 |
| Timing.GreenTimeRulesAgree | Traffic_System/smart-traffic-light/src/main/java/com/smarttraffic/model/TrafficSignal.java:22-23 | the signal's rule and the controller's rule agree on every count and waiting time |
| Timing.GreenTimeMonotone | Traffic_System/smart-traffic-light/src/main/java/com/smarttraffic/controller/SignalController.java:37 | for a lane that is not starved, more queued cars never shorten the green |
| Phases.PhaseTrace | Traffic_System/smart-traffic-light/src/main/java/com/smarttraffic/controller/SignalController.java:40-49 | one service is GREEN, then YELLOW, then RED, each the successor of the previous, all on one light; GREEN is held for the green time, YELLOW for 2, RED ends the cycle with no hold; the whole service holds green time + 2 |
| Phases.ShowFrame | Traffic_System/smart-traffic-light/src/main/java/com/smarttraffic/controller/SignalController.java:40-49 | events about one light leave every other light's colour as it was, and that light ends with the last event's colour |
| Phases.SingleActiveLight | Traffic_System/smart-traffic-light/src/main/java/com/smarttraffic/controller/SignalController.java:40-49 | for any well-formed service (the trace of a controller cycle or of `run`) starting from all lights RED, at most one light is lit after every prefix, and all are RED again at its end |
| Selection.IntegerCompare | Traffic_System/smart-traffic-light/src/main/java/com/smarttraffic/controller/SignalController.java:31 | the sign of the result orders the two counts |
| Selection.CompareOnCounts | Traffic_System/smart-traffic-light/src/main/java/com/smarttraffic/controller/SignalController.java:28-31 | on two lanes that are not starved the lambda is antisymmetric and ranks the first lane at least as high exactly when it has at least as many cars |
| Selection.CompareNotAntisymmetric | Traffic_System/smart-traffic-light/src/main/java/com/smarttraffic/controller/SignalController.java:29-30 | two starved lanes each rank strictly above the other |
| Selection.MaxBy | Traffic_System/smart-traffic-light/src/main/java/com/smarttraffic/controller/SignalController.java:27-28 | the combining step returns one of its two lanes, and never the one the comparator ranks strictly lower: the returned lane compares at least equal to the other |
| Selection.Fold | Traffic_System/smart-traffic-light/src/main/java/com/smarttraffic/controller/SignalController.java:27-32 | the reduction of the first n lanes returns one of those lanes |
| Selection.FoldChosen | Traffic_System/smart-traffic-light/src/main/java/com/smarttraffic/controller/SignalController.java:27-31 | the fold returns the first starved lane if one exists, else the first lane whose car count is maximal |
| Selection.ChosenUnique | Traffic_System/smart-traffic-light/src/main/java/com/smarttraffic/controller/SignalController.java:27-31 | the policy names at most one lane |
| Selection.Select | Traffic_System/smart-traffic-light/src/main/java/com/smarttraffic/controller/SignalController.java:27-32 | nothing is selected exactly when there are no lanes; otherwise the result is a lane, the one the policy names |
| Selection.SelectCharacterized | Traffic_System/smart-traffic-light/src/main/java/com/smarttraffic/controller/SignalController.java:27-31 | for a non-empty lane sequence, the selected index is i if and only if i is the policy's choice |
| Selection.StarvedLanePriority | Traffic_System/smart-traffic-light/src/main/java/com/smarttraffic/controller/SignalController.java:29-30 | if any lane is starved, the selected lane is starved and no later in the order, whatever the queues |
| Selection.FirstStarvedNotLongestWaiting | Traffic_System/smart-traffic-light/src/main/java/com/smarttraffic/controller/SignalController.java:29-30 | with two starved lanes the first is served although the second waited longer |
| Controller.Tick | Traffic_System/smart-traffic-light/src/main/java/com/smarttraffic/controller/SignalController.java:24 | every lane's waiting time goes up by exactly one; names and counts are untouched |
| Controller.RunCycle | Traffic_System/smart-traffic-light/src/main/java/com/smarttraffic/controller/SignalController.java:21-53 | no cycle for an empty lane set; otherwise the policy's lane on ticked times is served; its green time is in [2, 8], 5 if starved, else the clamped 2×count; only its light gets GREEN(green time), YELLOW(2), RED; afterwards it has waiting time 0, every other lane is one cycle older, no count or name changes, and validity is kept |
| Controller.ApplyTraffic | Traffic_System/smart-traffic-light/src/main/java/com/smarttraffic/MainApp.java:134-142 | vehicle arrivals (`addCar`, MainApp.java:134-142) and departures (`removeCar`, MainApp.java:237) between cycles keep names and waiting times and keep every lane valid |
| Controller.Serve | Traffic_System/smart-traffic-light/src/main/java/com/smarttraffic/controller/SignalController.java:23-50 | one loop pass serves the lane the selection policy names on the ticked lanes (first starved lane, else first busiest); afterwards that lane has waiting time 0, every other lane is one cycle older, no name or car count changes, and validity is kept; the first lane in iteration order is below the threshold after the pass, whatever its waiting time before |
| Controller.RunCycles | Traffic_System/smart-traffic-light/src/main/java/com/smarttraffic/controller/SignalController.java:20-54 | a finite stretch of the loop with arbitrary traffic between cycles: the lane served in each cycle is the policy's choice on that cycle's ticked lanes after its traffic, and each cycle's end state is the next cycle's start; names and validity are kept; every waiting time is the number of cycles since the lane was last served, or its initial time plus the number of cycles if it was never served; the first lane in iteration order is below the threshold at the end of any run with at least one cycle, and of any run that starts with it below |
| Controller.ExpectedWaitAppend | Traffic_System/smart-traffic-light/src/main/java/com/smarttraffic/controller/SignalController.java:24-50 | one more cycle restarts the served lane's count at 0 and adds one to every other lane's |
| Controller.ExpectedWaitsAfterCycle | Traffic_System/smart-traffic-light/src/main/java/com/smarttraffic/controller/SignalController.java:24-50 | if every lane's waiting time is its cycle-by-cycle count before a cycle, resetting the served lane and ticking the others keeps it so for every lane |
| Controller.WaitMatchesStep | Traffic_System/smart-traffic-light/src/main/java/com/smarttraffic/controller/SignalController.java:24-50 | one more cycle keeps "waiting time = cycles since last served" true: the served lane drops to 0, every other lane gains one |
| Controller.RoundStepsExtend | Traffic_System/smart-traffic-light/src/main/java/com/smarttraffic/controller/SignalController.java:20-54 | a run whose cycles all follow the loop body, extended by one more such cycle, still has every cycle following the loop body |
| Controller.ExpectedWaitClosedForm | Traffic_System/smart-traffic-light/src/main/java/com/smarttraffic/controller/SignalController.java:24-50 | counting the waiting time cycle by cycle (reset when served, one more otherwise) gives the number of cycles since the last service, or the initial time plus the number of cycles if the lane was never served |
| Controller.IdleLanesServeFirst | Traffic_System/smart-traffic-light/src/main/java/com/smarttraffic/controller/SignalController.java:27-37 | four empty lanes, none starved: the first lane is served, for 2 seconds |
| Controller.StarvationOverridesCount | Traffic_System/smart-traffic-light/src/main/java/com/smarttraffic/controller/SignalController.java:27-38 | an empty lane that reaches 15 after the tick beats a lane with 10 cars and gets 5 seconds |
| Controller.RunServesStarvedLane | Traffic_System/smart-traffic-light/src/main/java/com/smarttraffic/controller/SignalController.java:20-50 | in any run from a lane with waiting time 0 and a lane with 20, both empty, the first cycle serves the starved second lane |
| Signal.Run | Traffic_System/smart-traffic-light/src/main/java/com/smarttraffic/model/TrafficSignal.java:13-37 | green time in [2, 8], 5 from a waiting time of 15 on, else the clamped 2×count; the light the signal was built with gets GREEN(green time), YELLOW(2), RED; afterwards the waiting time is 0 and the count and name are unchanged |
| Signal.ControllerServesLikeSignal | Traffic_System/smart-traffic-light/src/main/java/com/smarttraffic/model/TrafficSignal.java:22-35 | the controller serves its selected lane exactly as `run` serves that lane after the tick on that lane's light: same green time, same events, same lane afterwards |

## Left out

- JavaFX: the `Circle` lights and their `Color`s are the `Phase` datatype and a map from lane name to phase. `Platform.runLater` is the ordered list of events.
- `Thread.sleep` and the loop thread: each hold is a duration attached to the event. The infinite `while (true)` is a finite run of cycles.
- `InterruptedException` handling: interruption and cancellation are not modelled.
- Concurrent, unsynchronised writes to `carCount` from the arrival and animation threads: counts are stable within a cycle. Arrivals and departures are arbitrary traffic between cycles.
- Lanes.AddCar: the count is an unbounded integer, so the Java `int` wrap-around at 2^31 - 1 is not modelled.
- Lanes.IncrementWaitingTime: the waiting time is an unbounded integer, so the Java `int` wrap-around is not modelled.
- Timing.ControllerGreenTime: `2 * carCount` is computed without overflow. Java would wrap for counts above 2^30; the same holds for Timing.SignalGreenTime.
- Controller.RunCycles: requires at least one lane. With none, the source's loop thread dies on its first cycle, which Controller.RunCycle models as `None`.
- `HashMap` iteration order: it is unspecified. The lanes are a sequence in an arbitrary fixed order, and selection is stated relative to that order.
- A lane name without a light in the lights map: here an event for it simply adds the light. In the source, `lights.get` returns `null` and the light update fails on the UI thread. The application gives every lane a light.
- The rest of `MainApp` (scene layout, random arrivals, car animation, metrics labels): none of it is part of this model.
