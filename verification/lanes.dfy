/** One approach to the intersection: a name fixed at construction, the number
    of queued cars, and the number of decision cycles waited since the lane was
    last served. Both counters are Java `int`s in the source, hence `int` here;
    that they never go negative is proved, not assumed. */
module Lanes {

  datatype Lane = Lane(name: string, carCount: int, waitingTime: int)

  /** The counters as the source keeps them: never negative. */
  predicate Valid(l: Lane) {
    l.carCount >= 0 && l.waitingTime >= 0
  }

  /** `new Lane(name)`: both counters start at zero. */
  function NewLane(name: string): (l: Lane)
    ensures l.name == name
    ensures l.carCount == 0 && l.waitingTime == 0
    ensures Valid(l)
  {
    Lane(name, 0, 0)
  }

  /** `addCar`: one more queued car; nothing else changes. */
  function AddCar(l: Lane): (r: Lane)
    ensures r.carCount == l.carCount + 1
    ensures r.name == l.name && r.waitingTime == l.waitingTime
    ensures Valid(l) ==> Valid(r)
  {
    l.(carCount := l.carCount + 1)
  }

  /** `removeCar`: one car fewer, but never below zero. */
  function RemoveCar(l: Lane): (r: Lane)
    ensures l.carCount > 0 ==> r.carCount == l.carCount - 1
    ensures l.carCount <= 0 ==> r == l
    ensures r.name == l.name && r.waitingTime == l.waitingTime
    ensures Valid(l) ==> Valid(r)
  {
    if l.carCount > 0 then l.(carCount := l.carCount - 1) else l
  }

  /** `incrementWaitingTime`: one more cycle waited; the queue is untouched. */
  function IncrementWaitingTime(l: Lane): (r: Lane)
    ensures r.waitingTime == l.waitingTime + 1
    ensures r.name == l.name && r.carCount == l.carCount
    ensures Valid(l) ==> Valid(r)
  {
    l.(waitingTime := l.waitingTime + 1)
  }

  /** `resetWaitingTime`: the lane has just been served. */
  function ResetWaitingTime(l: Lane): (r: Lane)
    ensures r.waitingTime == 0
    ensures r.name == l.name && r.carCount == l.carCount
    ensures Valid(l) ==> Valid(r)
  {
    l.(waitingTime := 0)
  }

  /** Adding a car and then removing one gives back the lane, for every lane
      whose count is not negative. */
  lemma AddThenRemove(l: Lane)
    requires l.carCount >= 0
    ensures RemoveCar(AddCar(l)) == l
  {
  }

  /** Resetting twice is resetting once. */
  lemma ResetIdempotent(l: Lane)
    ensures ResetWaitingTime(ResetWaitingTime(l)) == ResetWaitingTime(l)
  {
  }

  /** What the vehicle feed does to one lane: a car arrives or a car leaves. */
  datatype Feed = Arrive | Depart

  function ApplyOne(l: Lane, f: Feed): Lane {
    match f
    case Arrive => AddCar(l)
    case Depart => RemoveCar(l)
  }

  /** The lane after a sequence of arrivals and departures, in order. */
  function ApplyFeed(l: Lane, fs: seq<Feed>): Lane
    decreases |fs|
  {
    if |fs| == 0 then l else ApplyFeed(ApplyOne(l, fs[0]), fs[1..])
  }

  /** Whatever the feed does, the count stays non-negative, never exceeds the
      start plus the arrivals, never drops below the start plus the arrivals
      minus the departures, and neither the name nor the waiting time moves. */
  lemma {:induction false} FeedBounds(l: Lane, fs: seq<Feed>)
    requires l.carCount >= 0
    ensures ApplyFeed(l, fs).carCount >= 0
    ensures ApplyFeed(l, fs).carCount <= l.carCount + multiset(fs)[Arrive]
    ensures ApplyFeed(l, fs).carCount >= l.carCount + multiset(fs)[Arrive] - multiset(fs)[Depart]
    ensures ApplyFeed(l, fs).name == l.name
    ensures ApplyFeed(l, fs).waitingTime == l.waitingTime
    decreases |fs|
  {
    if |fs| > 0 {
      assert fs == [fs[0]] + fs[1..];
      assert multiset(fs) == multiset([fs[0]]) + multiset(fs[1..]);
      FeedBounds(ApplyOne(l, fs[0]), fs[1..]);
    }
  }

  /** A valid lane stays valid under any feed. */
  lemma FeedKeepsValid(l: Lane, fs: seq<Feed>)
    requires Valid(l)
    ensures Valid(ApplyFeed(l, fs))
  {
    FeedBounds(l, fs);
  }
}
