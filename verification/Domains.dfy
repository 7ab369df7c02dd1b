/** The radio and sync managers on one bus, updating their fields in place as
    internal/radio/manager.go, internal/event/bus.go and internal/sync/ptp.go do. */
module Domains {
  import opened Wrappers
  import opened Alarms

  class Domains {
    var links: map<string, LinkState>
    var clock: Clock
    /** The sync domain's subscription. */
    var queue: seq<Message>
    const capacity: nat
    const thresholds: Thresholds
    ghost var sent: seq<Message>
    ghost var accepted: seq<Message>
    ghost var heard: seq<Input>

    ghost function View(): World
      reads this
    {
      World(links, clock, queue, capacity, sent, accepted, heard)
    }

    constructor (links: map<string, LinkState>, clock: Clock, capacity: nat, thresholds: Thresholds)
      ensures View() == Fresh(links, clock, capacity) && this.thresholds == thresholds
    {
      this.links, this.clock, this.capacity, this.thresholds := links, clock, capacity, thresholds;
      queue, sent, accepted, heard := [], [], [], [];
    }

    /** `Bus.Publish` to the one subscriber that matters here: never blocks, drops when full. */
    method Publish(m: Message)
      modifies this
      ensures View() == Alarms.Publish(old(View()), m)
    {
      if |queue| < capacity {
        queue := queue + [m];
        accepted := accepted + [m];
      }
      sent := sent + [m];
    }

    /** `report`. */
    method Report(link: string, current: LinkState, next: LinkState)
      modifies this
      ensures View() == PublishAll(old(View()), Alarms.Report(link, current, next))
    {
      ghost var leaving :=
        if current == Down then [LinkDown(false, link)]
        else if current == Degraded then [LinkDegraded(false, link)] else [];
      ghost var entering :=
        if next == Down then [LinkDown(true, link)]
        else if next == Degraded then [LinkDegraded(true, link)] else [];
      match current {
        case Down => Publish(LinkDown(false, link));
        case Degraded => Publish(LinkDegraded(false, link));
        case Up =>
      }
      match next {
        case Down => Publish(LinkDown(true, link));
        case Degraded => Publish(LinkDegraded(true, link));
        case Up =>
      }
      PublishAppend(old(View()), leaving, entering);
    }

    /** The state-machine part of `evaluateLink`, for a measured level and fade margin. */
    method EvaluateLink(link: string, rssi: real, margin: Option<real>)
      modifies this
      ensures View() == Act(old(View()), thresholds, Measure(link, rssi, margin))
    {
      var current := if link in links then links[link] else Up;
      var next := NextLinkState(current, rssi, margin, thresholds);
      if next != current { Report(link, current, next); }
      links := links[link := next];
    }

    /** `transition`. */
    method Transition(next: Clock)
      modifies this
      ensures View() == Alarms.Transition(old(View()), next)
    {
      var from := clock;
      clock := next;
      ghost var start := View();
      Publish(StateTransition(from, next));
      if next == HoldoverOutOfSpec {
        Publish(SyncHoldover(true));
        PublishAppend(start, [StateTransition(from, next)], [SyncHoldover(true)]);
      } else if from == HoldoverOutOfSpec {
        Publish(SyncHoldover(false));
        PublishAppend(start, [StateTransition(from, next)], [SyncHoldover(false)]);
      } else {
        PublishAppend(start, [StateTransition(from, next)], []);
      }
    }

    /** `handleLocked`. */
    method HandleLocked(input: Input)
      modifies this
      ensures View() == Handle(old(View()), input)
    {
      heard := heard + [input];
      var next := NextState(clock, input);
      if next.None? || next.value == clock { return; }
      Transition(next.value);
    }

    /** Run's receive from the bus, and `handleDomainEvent`. */
    method Receive()
      modifies this
      ensures View() == Act(old(View()), thresholds, Deliver)
    {
      if queue == [] { return; }
      var m := queue[0];
      queue := queue[1..];
      if m.LinkDown? && m.raised { HandleLocked(SourceLost); }
      else if m.LinkDown? { HandleLocked(SourceRestored); }
    }

    /** `expireHoldover`. */
    method ExpireHoldover()
      modifies this
      ensures View() == Act(old(View()), thresholds, Expire)
    {
      if clock != HoldoverInSpec { return; }
      HandleLocked(HoldoverExpired);
    }

    /** `reconcilePTP`. */
    method ReconcilePtp(master: bool)
      modifies this
      ensures View() == Act(old(View()), thresholds, Tick(master))
    {
      if !master || clock != Freerun { return; }
      HandleLocked(SourceDetected);
      HandleLocked(CalibrationComplete);
    }
  }

  lemma {:induction false} PublishAppend(w: World, a: seq<Message>, b: seq<Message>)
    ensures PublishAll(w, a + b) == PublishAll(PublishAll(w, a), b)
    ensures |b| == 1 ==> PublishAll(PublishAll(w, a), b) == Publish(PublishAll(w, a), b[0])
    ensures |a| == 1 ==> PublishAll(w, a) == Publish(w, a[0])
    decreases |a|
  {
    if a == [] {
      assert a + b == b;
    } else {
      assert (a + b)[1..] == a[1..] + b;
      PublishAppend(Publish(w, a[0]), a[1..], b);
    }
  }
}
