/** `TrafficSignal.run`: one lane served on the light the signal was built
    with, using the green-time rule written with literal constants. */
module Signal {
  import opened Lanes
  import opened Timing
  import opened Phases
  import opened Selection
  import Controller

  datatype Service = Service(lane: Lane, greenTime: nat, trace: seq<Event>)

  /** `light` is the light the `TrafficSignal` was constructed with, which
      need not be the lane's own. */
  function Run(lane: Lane, light: string): (r: Service)
    ensures 2 <= r.greenTime <= 8
    ensures lane.waitingTime >= 15 ==> r.greenTime == 5
    ensures lane.waitingTime < 15 ==> r.greenTime == Clamp(lane.carCount * 2, 2, 8)
    ensures IsServiceTrace(r.trace, light) && r.trace[0].hold == r.greenTime
    ensures r.lane.waitingTime == 0
    ensures r.lane.carCount == lane.carCount && r.lane.name == lane.name
  {
    var greenTime := SignalGreenTime(lane.carCount, lane.waitingTime);
    Service(ResetWaitingTime(lane), greenTime, PhaseTrace(light, greenTime))
  }

  /** The controller's cycle serves its selected lane exactly as `run` would
      serve that lane once ticked, when the signal drives that lane's light:
      same green time, same events, same lane afterwards. */
  lemma ControllerServesLikeSignal(lanes: seq<Lane>)
    requires |lanes| > 0
    ensures var c := Controller.RunCycle(lanes).value;
      var s := Run(Controller.Tick(lanes)[c.served], lanes[c.served].name);
      && s.greenTime == c.greenTime
      && s.trace == c.trace
      && s.lane == c.lanes[c.served]
  {
    var ticked := Controller.Tick(lanes);
    var sel := Select(ticked).value;
    GreenTimeRulesAgree(ticked[sel].carCount, ticked[sel].waitingTime);
  }
}
