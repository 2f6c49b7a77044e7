/** What the scheduler tells the signal output: a light, the colour it turns,
    and how long the scheduler then holds before its next step (the source's
    `Thread.sleep`). The lights themselves are a map from lane name to colour,
    as the application keys its `Circle`s by lane name. */
module Phases {
  import opened Timing

  datatype Phase = Green | Yellow | Red

  datatype Event = Event(light: string, phase: Phase, hold: nat)

  /** The colour that follows another within one cycle: GREEN, then YELLOW, then RED. */
  function Next(p: Phase): Phase {
    match p
    case Green => Yellow
    case Yellow => Red
    case Red => Red
  }

  /** A well-formed service of one light: it starts GREEN, each event is the
      successor colour of the one before, it ends RED with nothing more to
      wait for, YELLOW is held for `YellowHold`, and only `light` is touched. */
  ghost predicate IsServiceTrace(t: seq<Event>, light: string) {
    && |t| == 3
    && t[0].phase == Green
    && (forall k :: 0 < k < |t| ==> t[k].phase == Next(t[k - 1].phase))
    && t[1].hold == YellowHold
    && t[2].phase == Red && t[2].hold == 0
    && (forall k :: 0 <= k < |t| ==> t[k].light == light)
  }

  /** The seconds the scheduler is suspended while a trace is emitted. */
  function TotalHold(t: seq<Event>): nat {
    if |t| == 0 then 0 else t[0].hold + TotalHold(t[1..])
  }

  /** The three emissions of one service: GREEN held `greenTime`, YELLOW held
      two seconds, RED. */
  function PhaseTrace(light: string, greenTime: nat): (t: seq<Event>)
    ensures IsServiceTrace(t, light)
    ensures t[0].hold == greenTime
    ensures TotalHold(t) == greenTime + YellowHold
  {
    var t := [Event(light, Green, greenTime), Event(light, Yellow, YellowHold), Event(light, Red, 0)];
    assert TotalHold(t[2..]) == 0 by { assert t[2..][1..] == []; }
    assert t[1..][1..] == t[2..];
    t
  }

  type Lights = map<string, Phase>

  /** The lights after the output has applied a sequence of events in order. */
  function Show(lights: Lights, t: seq<Event>): Lights
    decreases |t|
  {
    if |t| == 0 then lights else Show(lights[t[0].light := t[0].phase], t[1..])
  }

  ghost predicate AllRed(lights: Lights) {
    forall x :: x in lights ==> lights[x] == Red
  }

  /** At most one light is GREEN or YELLOW. */
  ghost predicate AtMostOneLit(lights: Lights) {
    forall x, y :: x in lights && y in lights && lights[x] != Red && lights[y] != Red ==> x == y
  }

  ghost predicate OnlyAbout(t: seq<Event>, light: string) {
    forall k :: 0 <= k < |t| ==> t[k].light == light
  }

  /** Events about one light leave every other light as it was, and that light
      ends up with the colour of the last event. */
  lemma {:induction false} ShowFrame(lights: Lights, t: seq<Event>, light: string)
    requires OnlyAbout(t, light)
    ensures Show(lights, t).Keys == if |t| == 0 then lights.Keys else lights.Keys + {light}
    ensures forall y :: y in lights && y != light ==> Show(lights, t)[y] == lights[y]
    ensures |t| > 0 ==> Show(lights, t)[light] == t[|t| - 1].phase
    decreases |t|
  {
    if |t| > 0 {
      ShowFrame(lights[t[0].light := t[0].phase], t[1..], light);
    }
  }

  /** Starting from all lights RED, at every moment of a well-formed service
      at most one light is lit, and when the service is over every light is
      RED again. */
  lemma SingleActiveLight(lights: Lights, t: seq<Event>, light: string, k: nat)
    requires AllRed(lights)
    requires IsServiceTrace(t, light)
    requires k <= |t|
    ensures AtMostOneLit(Show(lights, t[..k]))
    ensures AllRed(Show(lights, t))
  {
    assert OnlyAbout(t[..k], light);
    ShowFrame(lights, t[..k], light);
    ShowFrame(lights, t, light);
  }
}
