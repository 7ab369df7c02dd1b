/** What the radio alarms, the bounded bus and the clock guarantee together. */
module AlarmLaws {
  import opened Wrappers
  import opened Alarms

  // ------------------------------------------------------------------- kinds of alarm

  /** A kind of alarm: whether a message is of it, and raised or cleared. */
  type Kind = Message -> Option<bool>

  function AnyDown(): Kind { (m: Message) => if m.LinkDown? then Some(m.raised) else None }

  function DownOf(link: string): Kind { (m: Message) => if m.LinkDown? && m.link == link then Some(m.raised) else None }

  function Holdover(): Kind { (m: Message) => if m.SyncHoldover? then Some(m.raised) else None }

  /** The alarms of one kind among some messages. */
  function Flags(ms: seq<Message>, kind: Kind): seq<bool> {
    if ms == [] then []
    else
      var k := |ms| - 1;
      Flags(ms[..k], kind) + (if kind(ms[k]).Some? then [kind(ms[k]).value] else [])
  }

  lemma {:induction false} FlagsConcat(a: seq<Message>, b: seq<Message>, kind: Kind)
    ensures Flags(a + b, kind) == Flags(a, kind) + Flags(b, kind)
    decreases |b|
  {
    if b == [] {
      assert a + b == a;
    } else {
      var k := |b| - 1;
      assert (a + b)[..|a + b| - 1] == a + b[..k];
      FlagsConcat(a, b[..k], kind);
    }
  }

  lemma {:induction false} NoFlags(ms: seq<Message>, kind: Kind)
    requires forall m <- ms :: kind(m).None?
    ensures Flags(ms, kind) == []
    decreases |ms|
  {
    if ms != [] { NoFlags(ms[..|ms| - 1], kind); }
  }

  function Last(ds: seq<bool>, none: bool): bool {
    if ds == [] then none else ds[|ds| - 1]
  }

  // ------------------------------------------------------------------- what was sent

  lemma {:induction false} PublishAllSent(w: World, ms: seq<Message>)
    ensures var v := PublishAll(w, ms);
            && v.sent == w.sent + ms && v.links == w.links && v.clock == w.clock
            && v.heard == w.heard && v.capacity == w.capacity
    decreases |ms|
  {
    if ms != [] {
      PublishAllSent(Publish(w, ms[0]), ms[1..]);
      assert w.sent + [ms[0]] + ms[1..] == w.sent + ms;
    } else {
      assert w.sent + ms == w.sent;
    }
  }

  /** Messages without alarms of a kind change none of the records of that kind. */
  lemma {:induction false} PublishAllQuiet(w: World, ms: seq<Message>, kind: Kind)
    requires forall m <- ms :: kind(m).None?
    ensures var v := PublishAll(w, ms);
            && Flags(v.sent, kind) == Flags(w.sent, kind) && Flags(v.accepted, kind) == Flags(w.accepted, kind)
            && Flags(v.queue, kind) == Flags(w.queue, kind)
    decreases |ms|
  {
    if ms != [] {
      var v := Publish(w, ms[0]);
      FlagsConcat(w.sent, [ms[0]], kind);
      FlagsConcat(w.accepted, [ms[0]], kind);
      FlagsConcat(w.queue, [ms[0]], kind);
      NoFlags([ms[0]], kind);
      PublishAllQuiet(v, ms[1..], kind);
    }
  }

  // -------------------------------------------------------------- what was delivered

  /** The queue is the end of what was accepted. */
  ghost predicate Queued(w: World) {
    |w.queue| <= |w.accepted| && w.queue == w.accepted[|w.accepted| - |w.queue|..]
  }

  function Delivered(w: World): seq<Message> {
    if |w.queue| <= |w.accepted| then w.accepted[..|w.accepted| - |w.queue|] else []
  }

  lemma PublishQueued(w: World, m: Message)
    requires Queued(w)
    ensures Queued(Publish(w, m)) && Delivered(Publish(w, m)) == Delivered(w)
  {
    assert Delivered(Publish(w, m)) == Delivered(w);
  }

  lemma {:induction false} PublishAllQueued(w: World, ms: seq<Message>)
    requires Queued(w)
    ensures Queued(PublishAll(w, ms)) && Delivered(PublishAll(w, ms)) == Delivered(w)
    decreases |ms|
  {
    if ms != [] {
      PublishQueued(w, ms[0]);
      PublishAllQueued(Publish(w, ms[0]), ms[1..]);
    }
  }

  // -------------------------------------------------------------- feeding the clock

  function ClockNext(c: Clock, input: Input): Clock {
    match NextState(c, input)
    case None => c
    case Some(next) => next
  }

  /** The clock after a sequence of inputs. */
  function ClockAfter(c: Clock, inputs: seq<Input>): Clock {
    if inputs == [] then c else ClockNext(ClockAfter(c, inputs[..|inputs| - 1]), inputs[|inputs| - 1])
  }

  lemma {:induction false} ClockAfterConcat(c: Clock, a: seq<Input>, b: seq<Input>)
    ensures ClockAfter(c, a + b) == ClockAfter(ClockAfter(c, a), b)
    decreases |b|
  {
    if b == [] {
      assert a + b == a;
    } else {
      assert (a + b)[..|a + b| - 1] == a + b[..|b| - 1];
      ClockAfterConcat(c, a, b[..|b| - 1]);
    }
  }

  function HandleAll(w: World, inputs: seq<Input>): World {
    if inputs == [] then w else Handle(HandleAll(w, inputs[..|inputs| - 1]), inputs[|inputs| - 1])
  }

  /** What an action feeds the clock. */
  function Inputs(w: World, a: Action): seq<Input> {
    match a
    case Measure(_, _, _) => []
    case Deliver =>
      if w.queue == [] || !w.queue[0].LinkDown? then []
      else [if w.queue[0].raised then SourceLost else SourceRestored]
    case Expire => if w.clock == HoldoverInSpec then [HoldoverExpired] else []
    case Tick(master) => if master && w.clock == Freerun then [SourceDetected, CalibrationComplete] else []
    case Command(input) => [input]
  }

  function Popped(w: World, a: Action): World {
    if a.Deliver? && w.queue != [] then w.(queue := w.queue[1..]) else w
  }

  /** Every action but a measurement takes at most one message and feeds the clock. */
  lemma {:induction false} ActHandles(w: World, t: Thresholds, a: Action)
    requires !a.Measure?
    ensures Act(w, t, a) == HandleAll(Popped(w, a), Inputs(w, a))
  {
    var v, inputs := Popped(w, a), Inputs(w, a);
    assert HandleAll(v, []) == v;
    if |inputs| == 1 {
      assert inputs[..0] == [];
    } else if |inputs| == 2 {
      assert inputs[..1] == [SourceDetected] && [SourceDetected][..0] == [];
      assert HandleAll(v, [SourceDetected]) == Handle(v, SourceDetected);
    }
  }

  /** One input: the clock moves, and only the clock's own messages are published. */
  lemma {:induction false} HandleKeeps(w: World, input: Input)
    ensures var v := Handle(w, input);
            && v.links == w.links && v.capacity == w.capacity && v.clock == ClockNext(w.clock, input)
            && v.heard == w.heard + [input]
            && (Queued(w) ==> Queued(v) && Delivered(v) == Delivered(w))
  {
    var fed := w.(heard := w.heard + [input]);
    assert Queued(w) ==> Queued(fed) && Delivered(fed) == Delivered(w);
    var next := NextState(w.clock, input);
    if next.Some? && next.value != w.clock {
      hide PublishAll, Publish;
      var moved, ms := fed.(clock := next.value), Announce(w.clock, next.value);
      PublishAllSent(moved, ms);
      if Queued(w) {
        assert Queued(moved) && Delivered(moved) == Delivered(w);
        PublishAllQueued(moved, ms);
      }
    }
  }

  /** The kind tells none of the clock's own messages. */
  ghost predicate RadioOnly(kind: Kind) {
    forall m: Message :: m.SyncHoldover? || m.StateTransition? ==> kind(m).None?
  }

  lemma {:induction false} HandleQuiet(w: World, input: Input, kind: Kind)
    requires RadioOnly(kind)
    ensures var v := Handle(w, input);
            Flags(v.sent, kind) == Flags(w.sent, kind) && Flags(v.accepted, kind) == Flags(w.accepted, kind)
  {
    var next := NextState(w.clock, input);
    if next.Some? && next.value != w.clock {
      var moved := w.(heard := w.heard + [input], clock := next.value);
      PublishAllQuiet(moved, Announce(w.clock, next.value), kind);
    }
  }

  lemma {:induction false} HandleAllKeeps(w: World, inputs: seq<Input>)
    ensures var v := HandleAll(w, inputs);
            && v.links == w.links && v.capacity == w.capacity && v.clock == ClockAfter(w.clock, inputs)
            && v.heard == w.heard + inputs
            && (Queued(w) ==> Queued(v) && Delivered(v) == Delivered(w))
    decreases |inputs|
  {
    if inputs == [] {
      assert w.heard + inputs == w.heard;
    } else {
      var k := |inputs| - 1;
      HandleAllKeeps(w, inputs[..k]);
      HandleKeeps(HandleAll(w, inputs[..k]), inputs[k]);
      assert w.heard + inputs == w.heard + inputs[..k] + [inputs[k]];
    }
  }

  lemma {:induction false} HandleAllQuiet(w: World, inputs: seq<Input>, kind: Kind)
    requires RadioOnly(kind)
    ensures var v := HandleAll(w, inputs);
            Flags(v.sent, kind) == Flags(w.sent, kind) && Flags(v.accepted, kind) == Flags(w.accepted, kind)
    decreases |inputs|
  {
    if inputs != [] {
      var k := |inputs| - 1;
      HandleAllQuiet(w, inputs[..k], kind);
      HandleQuiet(HandleAll(w, inputs[..k]), inputs[k], kind);
    }
  }

  // ------------------------------------------------------------ alarms tell the truth

  /** The alarms take turns: raised, cleared, raised, ... */
  predicate Alternate(ds: seq<bool>) {
    forall i :: 0 <= i < |ds| - 1 ==> ds[i] != ds[i + 1]
  }

  /** These alarms lead from one state of the condition to another: they alternate, the first
      says the condition changed, and the last says what it is now. */
  predicate Tells(was: bool, ds: seq<bool>, now: bool) {
    Alternate(ds) && (ds != [] ==> ds[0] == !was) && Last(ds, was) == now
  }

  lemma TellsNext(was: bool, ds: seq<bool>, now: bool, next: bool)
    requires Tells(was, ds, now)
    ensures Tells(was, ds + (if now != next then [next] else []), next)
  {
    if now != next {
      var after := ds + [next];
      forall i | 0 <= i < |after| - 1 ensures after[i] != after[i + 1] {
        if i < |ds| - 1 { assert ds[i] != ds[i + 1]; }
      }
    } else {
      assert ds + [] == ds;
    }
  }

  /** The published link-down alarms of a link lead from its first state to its present one. */
  ghost predicate Truthful(start: World, w: World, link: string) {
    Tells(LinkOf(start, link) == Down, Flags(w.sent, DownOf(link)), LinkOf(w, link) == Down)
  }

  lemma OneFlag(m: Message, kind: Kind)
    ensures Flags([m], kind) == if kind(m).Some? then [kind(m).value] else []
  {
    assert [m][..0] == [];
  }

  /** The kind tells the link-down alarms of the link, and no message but link-down alarms. */
  ghost predicate Sees(kind: Kind, link: string) {
    && kind(LinkDown(true, link)) == Some(true) && kind(LinkDown(false, link)) == Some(false)
    && forall m: Message :: !m.LinkDown? ==> kind(m).None?
  }

  /** A change of state publishes a link-down alarm exactly when it enters or leaves `Down`. */
  lemma {:induction false} ReportFlags(link: string, current: LinkState, next: LinkState, kind: Kind)
    requires current != next && Sees(kind, link)
    ensures Flags(Report(link, current, next), kind) ==
            if (current == Down) != (next == Down) then [next == Down] else []
  {
    var ms := Report(link, current, next);
    OneFlag(ms[0], kind);
    if |ms| == 2 {
      assert ms == [ms[0]] + [ms[1]];
      FlagsConcat([ms[0]], [ms[1]], kind);
      OneFlag(ms[1], kind);
    } else {
      assert ms == [ms[0]];
    }
  }

  /** What a measurement of the link adds to the alarms of such a kind. */
  lemma {:induction false} MeasureFlags(w: World, t: Thresholds, a: Action, kind: Kind)
    requires a.Measure? && Sees(kind, a.link)
    ensures var v := Act(w, t, a); var was, now := LinkOf(w, a.link) == Down, LinkOf(v, a.link) == Down;
            && v.links.Keys == w.links.Keys + {a.link}
            && Flags(v.sent, kind) == Flags(w.sent, kind) + if was != now then [now] else []
  {
    hide Flags, PublishAll, Report;
    var current := LinkOf(w, a.link);
    var next := NextLinkState(current, a.rssi, a.margin, t);
    if next != current {
      var ms := Report(a.link, current, next);
      PublishAllSent(w, ms);
      FlagsConcat(w.sent, ms, kind);
      ReportFlags(a.link, current, next, kind);
    } else {
      assert Flags(w.sent, kind) + [] == Flags(w.sent, kind);
    }
  }

  lemma {:induction false} MeasureTruthful(start: World, w: World, t: Thresholds, a: Action, link: string)
    requires Truthful(start, w, link) && a.Measure?
    ensures Truthful(start, Act(w, t, a), link)
  {
    hide Flags, PublishAll, Report, Tells;
    if a.link == link {
      MeasureFlags(w, t, a, DownOf(link));
      TellsNext(LinkOf(start, link) == Down, Flags(w.sent, DownOf(link)),
                LinkOf(w, link) == Down, LinkOf(Act(w, t, a), link) == Down);
    } else {
      MeasureOthers(w, t, a, link);
    }
  }

  lemma {:induction false} MeasureOthers(w: World, t: Thresholds, a: Action, link: string)
    requires a.Measure? && a.link != link
    ensures var v := Act(w, t, a);
            LinkOf(v, link) == LinkOf(w, link) && Flags(v.sent, DownOf(link)) == Flags(w.sent, DownOf(link))
  {
    var current := LinkOf(w, a.link);
    var next := NextLinkState(current, a.rssi, a.margin, t);
    if next != current {
      var ms := Report(a.link, current, next);
      PublishAllSent(w, ms);
      PublishAllQuiet(w, ms, DownOf(link));
    }
  }

  /** In every run, from any start, with any other links and any commands, the link-down alarms
      of a link alternate and the last one tells whether it is down. */
  lemma {:induction false} AlarmsTellTheState(start: World, t: Thresholds, actions: seq<Action>, link: string)
    requires start.sent == []
    ensures Truthful(start, Play(start, t, actions), link)
    decreases |actions|
  {
    if actions != [] {
      var k := |actions| - 1;
      var w, a := Play(start, t, actions[..k]), actions[k];
      AlarmsTellTheState(start, t, actions[..k], link);
      if a.Measure? {
        MeasureTruthful(start, w, t, a, link);
      } else {
        ActHandles(w, t, a);
        HandleAllKeeps(Popped(w, a), Inputs(w, a));
        HandleAllQuiet(Popped(w, a), Inputs(w, a), DownOf(link));
      }
    }
  }

  // ---------------------------------------------------------------- the clock follows

  predicate Synchronized(c: Clock) { c in {Locked, HoldoverInSpec, HoldoverOutOfSpec} }

  /** The losses (true) and returns (false) of the source among some inputs. */
  function Sources(inputs: seq<Input>): seq<bool> {
    if inputs == [] then []
    else
      var k := |inputs| - 1;
      Sources(inputs[..k])
      + (if inputs[k] == SourceLost then [true] else if inputs[k] == SourceRestored then [false] else [])
  }

  lemma {:induction false} SourcesConcat(a: seq<Input>, b: seq<Input>)
    ensures Sources(a + b) == Sources(a) + Sources(b)
    decreases |b|
  {
    if b == [] {
      assert a + b == a;
    } else {
      assert (a + b)[..|a + b| - 1] == a + b[..|b| - 1];
      SourcesConcat(a, b[..|b| - 1]);
    }
  }

  /** A synchronized clock stays so until a reset, and is locked exactly when the source was last
      heard to return, or was never heard of and the clock began locked. */
  lemma {:induction false} SynchronizedClock(c: Clock, inputs: seq<Input>)
    requires Synchronized(c) && Reset !in inputs
    ensures Synchronized(ClockAfter(c, inputs))
    ensures ClockAfter(c, inputs) == Locked <==> !Last(Sources(inputs), c != Locked)
    decreases |inputs|
  {
    if inputs != [] {
      var k := |inputs| - 1;
      assert inputs[k] in inputs && forall i <- inputs[..k] :: i in inputs;
      SynchronizedClock(c, inputs[..k]);
    }
  }

  /** A clock that is not synchronized becomes so only by completing a calibration: no alarm and
      no return of the source does it. */
  lemma {:induction false} UnsynchronizedClock(c: Clock, inputs: seq<Input>)
    requires !Synchronized(c) && CalibrationComplete !in inputs
    ensures !Synchronized(ClockAfter(c, inputs))
    decreases |inputs|
  {
    if inputs != [] {
      var k := |inputs| - 1;
      assert inputs[k] in inputs && forall i <- inputs[..k] :: i in inputs;
      UnsynchronizedClock(c, inputs[..k]);
    }
  }

  /** In every run the clock is what the inputs it heard make of its first state. */
  lemma {:induction false} ClockIsWhatItHeard(start: World, t: Thresholds, actions: seq<Action>)
    requires start.heard == []
    ensures var w := Play(start, t, actions); w.clock == ClockAfter(start.clock, w.heard)
    decreases |actions|
  {
    if actions != [] {
      var k := |actions| - 1;
      var w, a := Play(start, t, actions[..k]), actions[k];
      ClockIsWhatItHeard(start, t, actions[..k]);
      if a.Measure? {
        MeasureKeepsClock(w, t, a);
      } else {
        ActHandles(w, t, a);
        HandleAllKeeps(Popped(w, a), Inputs(w, a));
        ClockAfterConcat(start.clock, w.heard, Inputs(w, a));
      }
    }
  }

  /** In every run, any commands included: unless reset, a clock that began synchronized is locked
      exactly when the source was last heard to return, or never heard of and the clock began locked;
      and one that did not stays unsynchronized until a calibration completes. */
  lemma ClockFollowsSources(start: World, t: Thresholds, actions: seq<Action>)
    requires start.heard == []
    ensures var w := Play(start, t, actions);
            && (Synchronized(start.clock) && Reset !in w.heard ==>
                  && Synchronized(w.clock)
                  && (w.clock == Locked <==> !Last(Sources(w.heard), start.clock != Locked)))
            && (!Synchronized(start.clock) && CalibrationComplete !in w.heard ==> !Synchronized(w.clock))
  {
    var w := Play(start, t, actions);
    ClockIsWhatItHeard(start, t, actions);
    if Synchronized(start.clock) {
      if Reset !in w.heard { SynchronizedClock(start.clock, w.heard); }
    } else if CalibrationComplete !in w.heard {
      UnsynchronizedClock(start.clock, w.heard);
    }
  }

  lemma {:induction false} MeasureKeepsClock(w: World, t: Thresholds, a: Action)
    requires a.Measure?
    ensures var v := Act(w, t, a);
            && v.clock == w.clock && v.heard == w.heard && v.capacity == w.capacity
            && (Queued(w) ==> Queued(v) && Delivered(v) == Delivered(w))
  {
    var current := LinkOf(w, a.link);
    var next := NextLinkState(current, a.rssi, a.margin, t);
    if next != current {
      var ms := Report(a.link, current, next);
      PublishAllSent(w, ms);
      if Queued(w) {
        PublishAllQueued(w, ms);
        var after := PublishAll(w, ms);
        assert Delivered(Act(w, t, a)) == Delivered(after);
      }
    } else if Queued(w) {
      assert Delivered(Act(w, t, a)) == Delivered(w);
    }
  }

  /** The command tells the clock of a source, as only alarms do otherwise, or resets it. */
  predicate Steers(a: Action) {
    a.Command? && a.input in {SourceLost, SourceRestored, Reset}
  }

  predicate Unsteered(actions: seq<Action>) {
    forall i :: 0 <= i < |actions| ==> !Steers(actions[i])
  }

  /** Without such commands, what the clock heard of its source is the alarms delivered to it. */
  lemma {:induction false} HeardIsDelivered(start: World, t: Thresholds, actions: seq<Action>)
    requires start.heard == [] && start.accepted == [] && start.queue == [] && Unsteered(actions)
    ensures var w := Play(start, t, actions);
            Queued(w) && Reset !in w.heard && Sources(w.heard) == Flags(Delivered(w), AnyDown())
    decreases |actions|
  {
    if actions != [] {
      var k := |actions| - 1;
      var w, a := Play(start, t, actions[..k]), actions[k];
      HeardIsDelivered(start, t, actions[..k]);
      if a.Measure? {
        MeasureKeepsClock(w, t, a);
      } else {
        HearStep(w, t, a);
      }
    }
  }

  lemma {:induction false} HearStep(w: World, t: Thresholds, a: Action)
    requires Queued(w) && Reset !in w.heard && Sources(w.heard) == Flags(Delivered(w), AnyDown())
    requires !a.Measure? && !Steers(a)
    ensures var v := Act(w, t, a);
            Queued(v) && Reset !in v.heard && Sources(v.heard) == Flags(Delivered(v), AnyDown())
  {
    hide Act, HandleAll, Flags, Sources, ClockAfter, Steers;
    var p, inputs := Popped(w, a), Inputs(w, a);
    ActHandles(w, t, a);
    var taken := if a.Deliver? && w.queue != [] then [w.queue[0]] else [];
    assert Queued(p) && Delivered(p) == Delivered(w) + taken;
    HandleAllKeeps(p, inputs);
    SourcesConcat(w.heard, inputs);
    FlagsConcat(Delivered(w), taken, AnyDown());
    InputsAreAlarms(w, a);
  }

  lemma {:induction false} InputsAreAlarms(w: World, a: Action)
    requires !a.Measure? && !Steers(a)
    ensures Reset !in Inputs(w, a)
    ensures Sources(Inputs(w, a)) == Flags(if a.Deliver? && w.queue != [] then [w.queue[0]] else [], AnyDown())
  {
    var inputs := Inputs(w, a);
    if |inputs| == 2 {
      SourcesConcat([SourceDetected], [CalibrationComplete]);
      assert inputs == [SourceDetected] + [CalibrationComplete];
    } else if |inputs| == 1 {
      assert inputs[..0] == [];
    }
    if a.Deliver? && w.queue != [] { assert [w.queue[0]][..0] == []; }
  }

  /** In every run without such commands, whatever was dropped on the way, a synchronized clock
      is locked exactly when the last link-down alarm delivered to it was not a raise. */
  lemma {:induction false} ClockFollowsAlarms(start: World, t: Thresholds, actions: seq<Action>)
    requires start.heard == [] && start.accepted == [] && start.queue == []
    requires Synchronized(start.clock) && Unsteered(actions)
    ensures var w := Play(start, t, actions);
            && Queued(w) && Synchronized(w.clock)
            && (w.clock == Locked <==> !Last(Flags(Delivered(w), AnyDown()), start.clock != Locked))
  {
    var w := Play(start, t, actions);
    HeardIsDelivered(start, t, actions);
    ClockFollowsSources(start, t, actions);
  }

  // ----------------------------------------------------------------- when they agree

  predicate SomeDown(w: World) {
    exists link :: link in w.links && w.links[link] == Down
  }

  /** The domains have just started, with a clock that is synchronized. */
  predicate Started(start: World) {
    start == Fresh(start.links, start.clock, start.capacity) && Synchronized(start.clock)
  }

  /** The last link-down alarm among these is a raise; with none, the clock began in holdover. */
  predicate Raised(start: World, ms: seq<Message>) {
    Last(Flags(ms, AnyDown()), start.clock != Locked)
  }

  /** A last alarm that is a raise is of a link that is down. */
  lemma {:induction false} RaisedIsDown(start: World, t: Thresholds, actions: seq<Action>)
    requires start.sent == [] && (start.clock != Locked ==> SomeDown(start))
    ensures var w := Play(start, t, actions); Raised(start, w.sent) ==> SomeDown(w)
    decreases |actions|
  {
    if actions != [] {
      var k := |actions| - 1;
      var w, a := Play(start, t, actions[..k]), actions[k];
      RaisedIsDown(start, t, actions[..k]);
      hide Act, HandleAll, Flags, Inputs;
      if a.Measure? {
        MeasureRaises(start, w, t, a);
      } else {
        ActHandles(w, t, a);
        HandleAllKeeps(Popped(w, a), Inputs(w, a));
        HandleAllQuiet(Popped(w, a), Inputs(w, a), AnyDown());
      }
    }
  }

  lemma {:induction false} MeasureRaises(start: World, w: World, t: Thresholds, a: Action)
    requires a.Measure? && (Raised(start, w.sent) ==> SomeDown(w))
    ensures Raised(start, Act(w, t, a).sent) ==> SomeDown(Act(w, t, a))
  {
    hide Flags, PublishAll, Report;
    var v := Act(w, t, a);
    MeasureFlags(w, t, a, AnyDown());
    if LinkOf(v, a.link) == Down {
      assert v.links[a.link] == Down;
    } else if LinkOf(w, a.link) != Down && SomeDown(w) {
      var other :| other in w.links && w.links[other] == Down;
      MeasureOthers(w, t, a, other);
      assert v.links[other] == Down;
    }
  }

  /** No link-down alarm is queued any more. */
  predicate Drained(w: World) {
    Flags(w.queue, AnyDown()) == []
  }

  /** Once the alarms are drained, the clock is locked exactly when the last one that found room
      was not a raise. So "locked exactly when no link is down" holds if and only if that last
      alarm is a raise exactly when some link is down. */
  lemma {:induction false} AgreementIff(start: World, t: Thresholds, actions: seq<Action>)
    requires Started(start) && Unsteered(actions) && Drained(Play(start, t, actions))
    ensures var w := Play(start, t, actions);
            && (w.clock == Locked <==> !Raised(start, w.accepted))
            && ((w.clock == Locked <==> !SomeDown(w)) <==> (Raised(start, w.accepted) <==> SomeDown(w)))
  {
    var w := Play(start, t, actions);
    ClockFollowsAlarms(start, t, actions);
    assert w.accepted == Delivered(w) + w.queue;
    FlagsConcat(Delivered(w), w.queue, AnyDown());
    assert Flags(w.accepted, AnyDown()) == Flags(Delivered(w), AnyDown());
  }

  /** No link-down alarm found the queue full. */
  ghost predicate Lossless(w: World) {
    && Flags(w.accepted, AnyDown()) == Flags(w.sent, AnyDown())
    && forall link :: Flags(w.accepted, DownOf(link)) == Flags(w.sent, DownOf(link))
  }

  lemma AlternateSuffix(a: seq<bool>, b: seq<bool>)
    requires Alternate(a + b)
    ensures Alternate(b)
  {
    forall i | 0 <= i < |b| - 1 ensures b[i] != b[i + 1] {
      assert (a + b)[|a| + i] != (a + b)[|a| + i + 1];
    }
  }

  /** No alarm lost, any number of links: the queued alarms of each link alternate; and once they
      are drained, "locked exactly when no link is down" holds if and only if no link is down
      behind a last alarm that is a clear. */
  lemma {:induction false} DomainsAgree(start: World, t: Thresholds, actions: seq<Action>, link: string)
    requires Started(start) && (start.clock != Locked ==> SomeDown(start))
    requires Unsteered(actions) && Lossless(Play(start, t, actions))
    ensures var w := Play(start, t, actions);
            && Alternate(Flags(w.queue, DownOf(link)))
            && (Drained(w) ==>
                  ((w.clock == Locked <==> !SomeDown(w)) <==> (SomeDown(w) ==> Raised(start, w.sent))))
  {
    hide Play, Flags, Sources, Unsteered;
    var w := Play(start, t, actions);
    AlarmsTellTheState(start, t, actions, link);
    HeardIsDelivered(start, t, actions);
    assert w.accepted == Delivered(w) + w.queue;
    FlagsConcat(Delivered(w), w.queue, DownOf(link));
    AlternateSuffix(Flags(Delivered(w), DownOf(link)), Flags(w.queue, DownOf(link)));
    if Drained(w) {
      AgreementIff(start, t, actions);
      RaisedIsDown(start, t, actions);
    }
  }

  /** There is only this link. */
  predicate OneLink(start: World, actions: seq<Action>, link: string) {
    && start.links.Keys <= {link}
    && forall i :: 0 <= i < |actions| ==> (actions[i].Measure? ==> actions[i].link == link)
  }

  /** Then its alarms are all the alarms. */
  lemma {:induction false} OneLinkFlags(start: World, t: Thresholds, actions: seq<Action>, link: string)
    requires start.sent == [] && OneLink(start, actions, link)
    ensures var w := Play(start, t, actions);
            && Flags(w.sent, AnyDown()) == Flags(w.sent, DownOf(link)) && w.links.Keys <= {link}
    decreases |actions|
  {
    if actions != [] {
      var k := |actions| - 1;
      var w, a := Play(start, t, actions[..k]), actions[k];
      OneLinkFlags(start, t, actions[..k], link);
      if a.Measure? {
        MeasureFlags(w, t, a, AnyDown());
        MeasureFlags(w, t, a, DownOf(link));
      } else {
        ActHandles(w, t, a);
        HandleAllKeeps(Popped(w, a), Inputs(w, a));
        HandleAllQuiet(Popped(w, a), Inputs(w, a), AnyDown());
        HandleAllQuiet(Popped(w, a), Inputs(w, a), DownOf(link));
      }
    }
  }

  /** One link that begins in agreement with the clock, alarms dropped or not: once drained, clock
      and link agree if and only if the last alarm that found room says the same as the last one
      published. So they agree in every run that loses no alarm. */
  lemma {:induction false} OneLinkAgrees(start: World, t: Thresholds, actions: seq<Action>, link: string)
    requires Started(start) && (start.clock == Locked <==> LinkOf(start, link) != Down)
    requires Unsteered(actions) && OneLink(start, actions, link) && Drained(Play(start, t, actions))
    ensures var w := Play(start, t, actions);
            && ((w.clock == Locked <==> LinkOf(w, link) != Down) <==>
                  (Raised(start, w.accepted) <==> Raised(start, w.sent)))
            && (Lossless(w) ==> (w.clock == Locked <==> LinkOf(w, link) != Down))
  {
    AgreementIff(start, t, actions);
    AlarmsTellTheState(start, t, actions, link);
    OneLinkFlags(start, t, actions, link);
  }

  // ---------------------------------------------------------------- room for the alarms

  /** The queue has room for two messages whenever a link is measured. */
  ghost predicate Roomy(start: World, t: Thresholds, actions: seq<Action>) {
    forall k :: 0 <= k < |actions| && actions[k].Measure? ==> RoomyAt(start, t, actions, k)
  }

  predicate RoomyAt(start: World, t: Thresholds, actions: seq<Action>, k: nat)
    requires k < |actions|
  {
    |Play(start, t, actions[..k]).queue| + 2 <= start.capacity
  }

  lemma {:induction false} PublishAllRoom(w: World, ms: seq<Message>)
    requires |w.queue| + |ms| <= w.capacity
    ensures PublishAll(w, ms).accepted == w.accepted + ms
    decreases |ms|
  {
    if ms != [] {
      PublishAllRoom(Publish(w, ms[0]), ms[1..]);
      assert w.accepted + [ms[0]] + ms[1..] == w.accepted + ms;
    } else {
      assert w.accepted + ms == w.accepted;
    }
  }

  /** With that room, no link-down alarm is lost. */
  lemma {:induction false} RoomyIsLossless(start: World, t: Thresholds, actions: seq<Action>)
    requires Lossless(start) && Roomy(start, t, actions)
    ensures Lossless(Play(start, t, actions)) && Play(start, t, actions).capacity == start.capacity
    decreases |actions|
  {
    if actions != [] {
      var k := |actions| - 1;
      var w, a := Play(start, t, actions[..k]), actions[k];
      forall j | 0 <= j < k && actions[..k][j].Measure? ensures RoomyAt(start, t, actions[..k], j) {
        assert actions[..k][..j] == actions[..j] && RoomyAt(start, t, actions, j);
      }
      RoomyIsLossless(start, t, actions[..k]);
      if a.Measure? {
        assert RoomyAt(start, t, actions, k);
        MeasureLossless(w, t, a);
      } else {
        HandlesLossless(w, t, a);
      }
    }
  }

  lemma {:induction false} MeasureLossless(w: World, t: Thresholds, a: Action)
    requires a.Measure? && Lossless(w) && |w.queue| + 2 <= w.capacity
    ensures Lossless(Act(w, t, a)) && Act(w, t, a).capacity == w.capacity
  {
    var current := LinkOf(w, a.link);
    var next := NextLinkState(current, a.rssi, a.margin, t);
    if next != current {
      var ms := Report(a.link, current, next);
      PublishAllSent(w, ms);
      PublishAllRoom(w, ms);
      FlagsConcat(w.sent, ms, AnyDown());
      FlagsConcat(w.accepted, ms, AnyDown());
      forall link ensures Flags(w.accepted + ms, DownOf(link)) == Flags(w.sent + ms, DownOf(link)) {
        FlagsConcat(w.sent, ms, DownOf(link));
        FlagsConcat(w.accepted, ms, DownOf(link));
      }
    }
  }

  lemma {:induction false} HandlesLossless(w: World, t: Thresholds, a: Action)
    requires !a.Measure? && Lossless(w)
    ensures Lossless(Act(w, t, a)) && Act(w, t, a).capacity == w.capacity
  {
    var p, inputs := Popped(w, a), Inputs(w, a);
    ActHandles(w, t, a);
    HandleAllKeeps(p, inputs);
    HandleAllQuiet(p, inputs, AnyDown());
    var v := HandleAll(p, inputs);
    forall link ensures Flags(v.accepted, DownOf(link)) == Flags(v.sent, DownOf(link)) {
      HandleAllQuiet(p, inputs, DownOf(link));
    }
  }

  // ------------------------------------------------------------------- the holdover alarm

  /** The published holdover alarms lead from the first clock state to the present one. */
  ghost predicate HoldoverTold(start: World, w: World) {
    Tells(start.clock == HoldoverOutOfSpec, Flags(w.sent, Holdover()), w.clock == HoldoverOutOfSpec)
  }

  /** A transition publishes a holdover alarm exactly when it enters or leaves out of specification. */
  lemma AnnounceFlags(from: Clock, next: Clock)
    requires from != next
    ensures Flags(Announce(from, next), Holdover()) ==
            if (from == HoldoverOutOfSpec) != (next == HoldoverOutOfSpec) then [next == HoldoverOutOfSpec] else []
  {
    var ms := Announce(from, next);
    assert Flags([ms[0]], Holdover()) == [] by { NoFlags([ms[0]], Holdover()); }
    if |ms| == 2 {
      assert ms[..1] == [ms[0]];
    } else {
      assert ms == [ms[0]];
    }
  }

  lemma {:induction false} HandleTold(start: World, w: World, input: Input)
    requires HoldoverTold(start, w)
    ensures HoldoverTold(start, Handle(w, input))
  {
    hide Flags, PublishAll, Announce, Alternate;
    var next := NextState(w.clock, input);
    if next.Some? && next.value != w.clock {
      var ms := Announce(w.clock, next.value);
      PublishAllSent(w.(heard := w.heard + [input], clock := next.value), ms);
      FlagsConcat(w.sent, ms, Holdover());
      AnnounceFlags(w.clock, next.value);
      TellsNext(start.clock == HoldoverOutOfSpec, Flags(w.sent, Holdover()),
                w.clock == HoldoverOutOfSpec, next.value == HoldoverOutOfSpec);
    }
  }

  lemma {:induction false} HandleAllTold(start: World, w: World, inputs: seq<Input>)
    requires HoldoverTold(start, w)
    ensures HoldoverTold(start, HandleAll(w, inputs))
    decreases |inputs|
  {
    if inputs != [] {
      var k := |inputs| - 1;
      HandleAllTold(start, w, inputs[..k]);
      HandleTold(start, HandleAll(w, inputs[..k]), inputs[k]);
    }
  }

  /** In every run, from any clock state and with any commands, the holdover alarms alternate and
      the last one tells whether the clock is out of specification. */
  lemma {:induction false} HoldoverAlarmTruthful(start: World, t: Thresholds, actions: seq<Action>)
    requires start.sent == []
    ensures HoldoverTold(start, Play(start, t, actions))
    decreases |actions|
  {
    if actions != [] {
      var k := |actions| - 1;
      var w, a := Play(start, t, actions[..k]), actions[k];
      HoldoverAlarmTruthful(start, t, actions[..k]);
      if a.Measure? {
        var current := LinkOf(w, a.link);
        var next := NextLinkState(current, a.rssi, a.margin, t);
        if next != current {
          PublishAllSent(w, Report(a.link, current, next));
          PublishAllQuiet(w, Report(a.link, current, next), Holdover());
        }
      } else {
        ActHandles(w, t, a);
        HandleAllTold(start, Popped(w, a), Inputs(w, a));
      }
    }
  }
}
