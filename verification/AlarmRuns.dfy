/** Runs in which the clock and the links come to disagree, for every threshold and capacity. */
module AlarmRuns {
  import opened Wrappers
  import opened Alarms
  import opened AlarmLaws

  function Strong(t: Thresholds): real { if t.rssiAlarm < t.rssiClear then t.rssiClear else t.rssiAlarm }

  function Fall(link: string, t: Thresholds): Action { Measure(link, t.rssiAlarm - 1.0, None) }

  function Recover(link: string, t: Thresholds): Action { Measure(link, Strong(t), None) }

  function Fade(link: string, t: Thresholds): Action { Measure(link, Strong(t), Some(t.fadeMin - 1.0)) }

  /** A raise delivered in holdover changes nothing. */
  lemma DeliverAgain(w: World, t: Thresholds)
    requires w.clock == HoldoverInSpec && w.queue != [] && w.queue[0].LinkDown? && w.queue[0].raised
    ensures Act(w, t, Deliver) == w.(queue := w.queue[1..], heard := w.heard + [SourceLost])
  {
  }

  lemma PublishOne(w: World, m: Message)
    ensures PublishAll(w, [m]) == Publish(w, m)
  {
    assert PublishAll(Publish(w, m), [m][1..]) == Publish(w, m);
  }

  /** A measurement that reports one alarm. */
  lemma MeasureOne(w: World, t: Thresholds, a: Action, next: LinkState, m: Message)
    requires a.Measure? && next == NextLinkState(LinkOf(w, a.link), a.rssi, a.margin, t) != LinkOf(w, a.link)
    requires Report(a.link, LinkOf(w, a.link), next) == [m]
    ensures Act(w, t, a) == Publish(w, m).(links := w.links[a.link := next])
  {
    PublishOne(w, m);
  }

  /** The delivery of a link-down alarm that moves the clock within specification. */
  lemma DeliverOne(w: World, t: Thresholds, next: Clock)
    requires w.queue != [] && w.queue[0].LinkDown?
    requires NextState(w.clock, if w.queue[0].raised then SourceLost else SourceRestored) == Some(next)
    requires w.clock != next && w.clock in {Locked, HoldoverInSpec} && next in {Locked, HoldoverInSpec}
    ensures var input := if w.queue[0].raised then SourceLost else SourceRestored;
            var moved := w.(queue := w.queue[1..], clock := next, heard := w.heard + [input]);
            Act(w, t, Deliver) == Publish(moved, StateTransition(w.clock, next))
  {
    var input := if w.queue[0].raised then SourceLost else SourceRestored;
    var moved := w.(queue := w.queue[1..], clock := next, heard := w.heard + [input]);
    assert Announce(w.clock, next) == [StateTransition(w.clock, next)];
    PublishOne(moved, StateTransition(w.clock, next));
  }

  // ---------------------------------------------------------------------- two links

  function ThreeAlarms(): seq<Message> { [LinkDown(true, "a"), LinkDown(true, "b"), LinkDown(false, "b")] }

  lemma TwoLinksFall(capacity: nat, t: Thresholds)
    requires capacity >= 3
    ensures Act(Act(Act(Calm(capacity), t, Fall("a", t)), t, Fall("b", t)), t, Recover("b", t)) ==
            World(map["a" := Down, "b" := Up], Locked, ThreeAlarms(), capacity, ThreeAlarms(), ThreeAlarms(), [])
  {
    var w0 := Calm(capacity);
    MeasureOne(w0, t, Fall("a", t), Down, LinkDown(true, "a"));
    var w1 := Act(w0, t, Fall("a", t));
    MeasureOne(w1, t, Fall("b", t), Down, LinkDown(true, "b"));
    var w2 := Act(w1, t, Fall("b", t));
    MeasureOne(w2, t, Recover("b", t), Up, LinkDown(false, "b"));
    var w3 := Act(w2, t, Recover("b", t));
    assert w3.queue == ThreeAlarms() && w3.sent == ThreeAlarms() && w3.accepted == ThreeAlarms();
    assert w3.links == map["a" := Down, "b" := Up];
  }

  lemma TwoLinksDeliver(w: World, t: Thresholds)
    requires w.clock == Locked && w.queue == ThreeAlarms() && w.capacity >= 3
    ensures var v := Act(Act(Act(w, t, Deliver), t, Deliver), t, Deliver);
            && v.clock == Locked && v.links == w.links && Drained(v)
            && (w.accepted == w.sent ==> v.accepted == v.sent) && w.sent <= v.sent
            && Flags(v.sent, AnyDown()) == Flags(w.sent, AnyDown())
  {
    hide Act, PublishAll, Flags;
    var note, back := StateTransition(Locked, HoldoverInSpec), StateTransition(HoldoverInSpec, Locked);
    DeliverOne(w, t, HoldoverInSpec);
    var v1 := Act(w, t, Deliver);
    assert v1.queue == [LinkDown(true, "b"), LinkDown(false, "b"), note] && v1.clock == HoldoverInSpec;
    assert v1.sent == w.sent + [note];
    DeliverAgain(v1, t);
    var v2 := Act(v1, t, Deliver);
    assert v2.queue == [LinkDown(false, "b"), note] && v2.clock == HoldoverInSpec && v2.sent == v1.sent;
    DeliverOne(v2, t, Locked);
    var v3 := Act(v2, t, Deliver);
    assert v3.queue == [note, back] && v3.sent == v1.sent + [back];
    NoFlags(v3.queue, AnyDown());
    FlagsConcat(w.sent, [note], AnyDown());
    FlagsConcat(v1.sent, [back], AnyDown());
    NoFlags([note], AnyDown());
    NoFlags([back], AnyDown());
  }

  /** One link down and, after it, another link down and up again: no alarm is lost, the clock is
      locked, and the first link is still down. */
  lemma {:induction false} TwoLinksDisagree(capacity: nat, t: Thresholds)
    requires capacity >= 3
    ensures var run := [Fall("a", t), Fall("b", t), Recover("b", t), Deliver, Deliver, Deliver];
            var w := Play(Calm(capacity), t, run);
            && Unsteered(run) && Lossless(w) && Drained(w) && w.clock == Locked && LinkOf(w, "a") == Down
  {
    hide Act, Publish, PublishAll, Report;
    var run := [Fall("a", t), Fall("b", t), Recover("b", t), Deliver, Deliver, Deliver];
    PlayOne(Calm(capacity), t, run[..0], run[0]);
    PlayOne(Calm(capacity), t, run[..1], run[1]);
    PlayOne(Calm(capacity), t, run[..2], run[2]);
    PlayOne(Calm(capacity), t, run[..3], run[3]);
    PlayOne(Calm(capacity), t, run[..4], run[4]);
    assert forall k :: 0 <= k < 6 ==> run[..k] + [run[k]] == run[..k + 1];
    assert run[..6] == run;
    TwoLinksFall(capacity, t);
    TwoLinksDeliver(Play(Calm(capacity), t, run[..3]), t);
  }

  lemma PlayOne(w: World, t: Thresholds, actions: seq<Action>, a: Action)
    ensures Play(w, t, actions + [a]) == Act(Play(w, t, actions), t, a)
  {
    assert (actions + [a])[..|actions|] == actions;
  }

  // ------------------------------------------------------------------- lost alarms

  lemma {:induction false} PlayConcat(w: World, t: Thresholds, a: seq<Action>, b: seq<Action>)
    ensures Play(w, t, a + b) == Play(Play(w, t, a), t, b)
    decreases |b|
  {
    if b == [] {
      assert a + b == a;
    } else {
      assert (a + b)[..|a + b| - 1] == a + b[..|b| - 1];
      PlayConcat(w, t, a, b[..|b| - 1]);
    }
  }

  /** A link that fades and recovers in turn. */
  function Flutter(link: string, t: Thresholds, n: nat): seq<Action> {
    seq(n, i requires 0 <= i => if i % 2 == 0 then Fade(link, t) else Recover(link, t))
  }

  predicate Quiet(ms: seq<Message>) {
    forall m <- ms :: m.LinkDegraded?
  }

  /** Fluttering fills the queue with messages the clock ignores. */
  lemma {:induction false} FlutterFills(capacity: nat, t: Thresholds, link: string, n: nat)
    requires n <= capacity
    ensures var w := Play(Calm(capacity), t, Flutter(link, t, n));
            && w.clock == Locked && |w.queue| == n && Quiet(w.queue) && w.sent == w.accepted == w.queue
            && w.capacity == capacity && w.links.Keys <= {link}
            && LinkOf(w, link) == if n % 2 == 0 then Up else Degraded
  {
    hide Act, Publish, PublishAll, Report;
    if n != 0 {
      FlutterFills(capacity, t, link, n - 1);
      var run := Flutter(link, t, n);
      assert run[..n - 1] == Flutter(link, t, n - 1);
      var w := Play(Calm(capacity), t, run[..n - 1]);
      FlutterStep(w, t, link, run[n - 1]);
    }
  }

  lemma FlutterStep(w: World, t: Thresholds, link: string, a: Action)
    requires |w.queue| < w.capacity && LinkOf(w, link) in {Up, Degraded}
    requires a == if LinkOf(w, link) == Up then Fade(link, t) else Recover(link, t)
    ensures var v := Act(w, t, a); var m := LinkDegraded(LinkOf(w, link) == Up, link);
            && v == w.(links := v.links, queue := w.queue + [m], sent := w.sent + [m], accepted := w.accepted + [m])
            && v.links.Keys == w.links.Keys + {link}
            && LinkOf(v, link) == if LinkOf(w, link) == Up then Degraded else Up
  {
    var current := LinkOf(w, link);
    var next := if current == Up then Degraded else Up;
    assert NextLinkState(current, a.rssi, a.margin, t) == next;
    var m := LinkDegraded(current == Up, link);
    MeasureOne(w, t, a, next, m);
  }

  /** Delivering messages the clock ignores only empties the queue. */
  lemma {:induction false} DeliverQuiet(w: World, t: Thresholds, n: nat)
    requires n <= |w.queue| && Quiet(w.queue[..n])
    ensures Play(w, t, seq(n, _ => Deliver)) == w.(queue := w.queue[n..])
  {
    if n != 0 {
      var run := seq(n, _ => Deliver);
      assert run[..n - 1] == seq(n - 1, _ => Deliver);
      assert forall m <- w.queue[..n - 1] :: m in w.queue[..n];
      DeliverQuiet(w, t, n - 1);
      assert w.queue[n - 1] == w.queue[..n][n - 1] && w.queue[n - 1] in w.queue[..n];
      assert w.queue[n - 1..][1..] == w.queue[n..];
    }
  }

  lemma {:induction false} FullDrops(w: World, ms: seq<Message>)
    requires |w.queue| >= w.capacity
    ensures PublishAll(w, ms) == w.(sent := w.sent + ms)
    decreases |ms|
  {
    if ms == [] {
      assert w.sent + ms == w.sent;
    } else {
      FullDrops(Publish(w, ms[0]), ms[1..]);
      assert w.sent + [ms[0]] + ms[1..] == w.sent + ms;
    }
  }

  lemma LoseTheRaise(w: World, t: Thresholds, link: string)
    requires |w.queue| == w.capacity && LinkOf(w, link) != Down
    ensures var v := Act(w, t, Fall(link, t));
            v == w.(sent := v.sent, links := w.links[link := Down])
  {
    FullDrops(w, Report(link, LinkOf(w, link), Down));
  }

  /** A queue of any capacity: the link flutters until the queue is full, then goes down, and the
      raise finds no room. Once the queue is drained the clock is locked and the link is down. */
  lemma {:induction false} LostRaiseDisagrees(capacity: nat, t: Thresholds, link: string)
    ensures var run := Flutter(link, t, capacity) + [Fall(link, t)] + seq(capacity, _ => Deliver);
            var w := Play(Calm(capacity), t, run);
            && Unsteered(run) && OneLink(Calm(capacity), run, link) && Drained(w)
            && w.clock == Locked && LinkOf(w, link) == Down
  {
    hide Act, Publish, PublishAll;
    var flutter, drain := Flutter(link, t, capacity), seq(capacity, _ => Deliver);
    FlutterFills(capacity, t, link, capacity);
    var full := Play(Calm(capacity), t, flutter);
    PlayOne(Calm(capacity), t, flutter, Fall(link, t));
    var down := Act(full, t, Fall(link, t));
    LoseTheRaise(full, t, link);
    PlayConcat(Calm(capacity), t, flutter + [Fall(link, t)], drain);
    assert down.queue[..capacity] == down.queue;
    DeliverQuiet(down, t, capacity);
  }

  /** One place left: the link's raise takes it and its clear is lost. */
  lemma LoseTheClear(w: World, t: Thresholds, link: string)
    requires |w.queue| + 1 == w.capacity && LinkOf(w, link) == Up
    ensures var v := Act(Act(w, t, Fall(link, t)), t, Recover(link, t));
            && v.queue == w.queue + [LinkDown(true, link)] && v.clock == w.clock && v.capacity == w.capacity
            && v.links == w.links[link := Up]
  {
    MeasureOne(w, t, Fall(link, t), Down, LinkDown(true, link));
    var v := Act(w, t, Fall(link, t));
    MeasureOne(v, t, Recover(link, t), Up, LinkDown(false, link));
  }

  lemma DeliverTheRaise(w: World, t: Thresholds, link: string)
    requires |w.queue| == w.capacity >= 1 && w.clock == Locked
    requires Quiet(w.queue[..w.capacity - 1]) && w.queue[w.capacity - 1] == LinkDown(true, link)
    ensures var v := Play(w, t, seq(w.capacity, _ => Deliver));
            Drained(v) && v.clock == HoldoverInSpec && v.links == w.links
  {
    var n := w.capacity - 1;
    var wait, drain := seq(n, _ => Deliver), seq(w.capacity, _ => Deliver);
    assert wait + [Deliver] == drain;
    PlayOne(w, t, wait, Deliver);
    DeliverQuiet(w, t, n);
    var last := Play(w, t, wait);
    assert last.queue == [LinkDown(true, link)];
    DeliverOne(last, t, HoldoverInSpec);
    NoFlags([StateTransition(Locked, HoldoverInSpec)], AnyDown());
  }

  /** The same with the clear lost: another link fills all but one place, the link goes down and
      comes up, and the clock stays in holdover with no link down. */
  lemma {:induction false} LostClearDisagrees(capacity: nat, t: Thresholds)
    requires capacity >= 1
    ensures var run := Flutter("d", t, capacity - 1) + [Fall("r", t), Recover("r", t)] + seq(capacity, _ => Deliver);
            var w := Play(Calm(capacity), t, run);
            && Unsteered(run) && Drained(w) && w.clock == HoldoverInSpec && !SomeDown(w)
  {
    hide Act, Publish, PublishAll;
    var start, flutter := Calm(capacity), Flutter("d", t, capacity - 1);
    var up := flutter + [Fall("r", t), Recover("r", t)];
    FlutterFills(capacity, t, "d", capacity - 1);
    var w := Play(start, t, flutter);
    PlayOne(start, t, flutter, Fall("r", t));
    PlayOne(start, t, flutter + [Fall("r", t)], Recover("r", t));
    assert flutter + [Fall("r", t)] + [Recover("r", t)] == up;
    LoseTheClear(w, t, "r");
    PlayConcat(start, t, up, seq(capacity, _ => Deliver));
    var v := Play(start, t, up);
    assert v.queue[..capacity - 1] == w.queue;
    DeliverTheRaise(v, t, "r");
  }
}
