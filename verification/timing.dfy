/** The controller's constants and the green-duration rule. Durations are in
    seconds (the source sleeps `greenTime * 1000` milliseconds); waiting times
    count decision cycles, because the controller ticks them once per loop
    iteration, whatever the comment on the threshold says. */
module Timing {

  const MinGreen: nat := 2
  const MaxGreen: nat := 8
  /** A lane whose waiting time reaches this many cycles is starved. */
  const StarvationTime: nat := 15
  /** Added to `MinGreen` to give the fixed slot of a starved lane. */
  const StarvationBonus: nat := 3
  const YellowHold: nat := 2

  predicate IsStarved(waitingTime: int) {
    waitingTime >= StarvationTime
  }

  function Min(a: int, b: int): int { if a <= b then a else b }
  function Max(a: int, b: int): int { if a >= b then a else b }

  /** `Math.min(Math.max(x, lo), hi)`. */
  function Clamp(x: int, lo: int, hi: int): (r: int)
    ensures r <= hi
    ensures lo <= hi ==> lo <= r
    ensures lo <= x <= hi ==> r == x
    ensures x < lo && lo <= hi ==> r == lo
    ensures x > hi ==> r == hi
  {
    Min(Max(x, lo), hi)
  }

  /** The controller's rule: two seconds per queued car within
      [MinGreen, MaxGreen], replaced by `MinGreen + 3` for a starved lane. */
  function ControllerGreenTime(carCount: int, waitingTime: int): (g: int)
    ensures MinGreen <= g <= MaxGreen
    ensures IsStarved(waitingTime) ==> g == MinGreen + StarvationBonus
    ensures !IsStarved(waitingTime) && carCount <= 1 ==> g == MinGreen
    ensures !IsStarved(waitingTime) && 1 <= carCount <= 4 ==> g == 2 * carCount
    ensures !IsStarved(waitingTime) && carCount >= 4 ==> g == MaxGreen
  {
    var byCount := Clamp(carCount * 2, MinGreen, MaxGreen);
    if waitingTime >= StarvationTime then MinGreen + StarvationBonus else byCount
  }

  /** The same rule as `TrafficSignal` writes it, with literal constants. */
  function SignalGreenTime(carCount: int, waitingTime: int): (g: int)
    ensures 2 <= g <= 8
    ensures waitingTime >= 15 ==> g == 5
  {
    var byCount := Min(Max(carCount * 2, 2), 8);
    if waitingTime >= 15 then 5 else byCount
  }

  /** The two green-time rules of the source agree on every input. */
  lemma GreenTimeRulesAgree(carCount: int, waitingTime: int)
    ensures SignalGreenTime(carCount, waitingTime) == ControllerGreenTime(carCount, waitingTime)
  {
  }

  /** For a lane that is not starved, more queued cars never give a shorter green. */
  lemma GreenTimeMonotone(c1: int, c2: int, waitingTime: int)
    requires c1 <= c2
    requires !IsStarved(waitingTime)
    ensures ControllerGreenTime(c1, waitingTime) <= ControllerGreenTime(c2, waitingTime)
  {
  }
}
