/** The radio alarms, the event bus and the PTP clock as one state machine:
    internal/radio/alarms.go, internal/event/bus.go and internal/sync/ptp.go. */
module Alarms {
  import opened Wrappers

  datatype LinkState = Up | Degraded | Down

  datatype Thresholds = Thresholds(rssiAlarm: real, rssiClear: real, fadeMin: real, fadeClear: real)

  datatype Clock = Freerun | Acquiring | Locked | HoldoverInSpec | HoldoverOutOfSpec

  datatype Input = SourceDetected | CalibrationComplete | SourceLost | SourceRestored | HoldoverExpired | Reset

  /** An event on the bus, as far as a subscriber can tell them apart. */
  datatype Message =
    | LinkDown(raised: bool, link: string)
    | LinkDegraded(raised: bool, link: string)
    | SyncHoldover(raised: bool)
    | StateTransition(from: Clock, to: Clock)

  /** The link states the radio domain last reported, the clock, and the sync domain's bounded
      queue. `sent` and `accepted` record what was published and what found room, `heard` what
      the clock was fed. */
  datatype World = World(
    links: map<string, LinkState>, clock: Clock, queue: seq<Message>, capacity: nat,
    sent: seq<Message>, accepted: seq<Message>, heard: seq<Input>)

  // --------------------------------------------------------------------- radio

  predicate IsDown(current: LinkState, rssi: real, t: Thresholds) {
    if current == Down then rssi < t.rssiClear else rssi < t.rssiAlarm
  }

  /** A fade margin of None is infinite: no profile fits the level. */
  predicate IsDegraded(current: LinkState, margin: Option<real>, t: Thresholds) {
    margin.Some? && (if current == Degraded then margin.value < t.fadeClear else margin.value < t.fadeMin)
  }

  function NextLinkState(current: LinkState, rssi: real, margin: Option<real>, t: Thresholds): LinkState {
    if IsDown(current, rssi, t) then Down else if IsDegraded(current, margin, t) then Degraded else Up
  }

  /** `report`: clear what the link leaves, raise what it enters. */
  function Report(link: string, current: LinkState, next: LinkState): seq<Message> {
    (match current { case Down => [LinkDown(false, link)] case Degraded => [LinkDegraded(false, link)] case Up => [] })
    + (match next { case Down => [LinkDown(true, link)] case Degraded => [LinkDegraded(true, link)] case Up => [] })
  }

  // ----------------------------------------------------------------------- bus

  function Publish(w: World, m: Message): World {
    if |w.queue| < w.capacity then w.(queue := w.queue + [m], sent := w.sent + [m], accepted := w.accepted + [m])
    else w.(sent := w.sent + [m])
  }

  function PublishAll(w: World, ms: seq<Message>): World
    decreases |ms|
  {
    if ms == [] then w else PublishAll(Publish(w, ms[0]), ms[1..])
  }

  // --------------------------------------------------------------------- clock

  /** `nextState`: None where the pair is undefined. */
  function NextState(from: Clock, input: Input): Option<Clock> {
    match input
    case SourceDetected => if from == Freerun then Some(Acquiring) else None
    case CalibrationComplete => if from == Acquiring then Some(Locked) else None
    case SourceLost =>
      if from == Locked then Some(HoldoverInSpec) else if from == Acquiring then Some(Freerun) else None
    case HoldoverExpired => if from == HoldoverInSpec then Some(HoldoverOutOfSpec) else None
    case SourceRestored => if from == HoldoverInSpec || from == HoldoverOutOfSpec then Some(Locked) else None
    case Reset => if from != Freerun then Some(Freerun) else None
  }

  /** What `transition` publishes. */
  function Announce(from: Clock, next: Clock): seq<Message> {
    [StateTransition(from, next)]
    + (if next == HoldoverOutOfSpec then [SyncHoldover(true)]
       else if from == HoldoverOutOfSpec then [SyncHoldover(false)] else [])
  }

  function Transition(w: World, next: Clock): World {
    PublishAll(w.(clock := next), Announce(w.clock, next))
  }

  function Handle(w: World, input: Input): World {
    var fed := w.(heard := w.heard + [input]);
    match NextState(w.clock, input)
    case None => fed
    case Some(next) => if next == w.clock then fed else Transition(fed, next)
  }

  /** `handleDomainEvent`. */
  function HandleMessage(w: World, m: Message): World {
    match m
    case LinkDown(true, _) => Handle(w, SourceLost)
    case LinkDown(false, _) => Handle(w, SourceRestored)
    case _ => w
  }

  // --------------------------------------------------------------------- steps

  datatype Action =
    | Measure(link: string, rssi: real, margin: Option<real>)
    | Deliver
    | Expire
    | Tick(master: bool)
    | Command(input: Input)

  function LinkOf(w: World, link: string): LinkState {
    if link in w.links then w.links[link] else Up
  }

  function Act(w: World, t: Thresholds, a: Action): World {
    match a
    case Measure(link, rssi, margin) =>
      var current := LinkOf(w, link);
      var next := NextLinkState(current, rssi, margin, t);
      var after := if next == current then w else PublishAll(w, Report(link, current, next));
      after.(links := after.links[link := next])
    case Deliver => if w.queue == [] then w else HandleMessage(w.(queue := w.queue[1..]), w.queue[0])
    case Expire => if w.clock == HoldoverInSpec then Handle(w, HoldoverExpired) else w
    case Tick(master) =>
      if master && w.clock == Freerun then Handle(Handle(w, SourceDetected), CalibrationComplete) else w
    case Command(input) => Handle(w, input)
  }

  function Play(w: World, t: Thresholds, actions: seq<Action>): World
    decreases |actions|
  {
    if actions == [] then w else Act(Play(w, t, actions[..|actions| - 1]), t, actions[|actions| - 1])
  }

  /** The domains as they start: link and clock states adopted from the datastore, nothing in
      flight. */
  function Fresh(links: map<string, LinkState>, clock: Clock, capacity: nat): World {
    World(links, clock, [], capacity, [], [], [])
  }

  /** All links up and the clock locked. */
  function Calm(capacity: nat): World {
    Fresh(map[], Locked, capacity)
  }
}
