/** What the levels measured on a link and the inputs of the clock make of their states, over whole
    runs: the hysteresis of internal/radio/alarms.go and the states of internal/sync/ptp.go. */
module AlarmStates {
  import opened Wrappers
  import opened Alarms
  import opened AlarmLaws

  // ------------------------------------------------------------------------- hysteresis

  /** The levels measured on a link. */
  function Levels(actions: seq<Action>, link: string): seq<real> {
    if actions == [] then []
    else
      var k := |actions| - 1;
      Levels(actions[..k], link)
      + (if actions[k].Measure? && actions[k].link == link then [actions[k].rssi] else [])
  }

  /** A level between the two thresholds decides nothing. */
  predicate Decisive(rssi: real, t: Thresholds) { rssi < t.rssiAlarm || rssi >= t.rssiClear }

  /** The last decisive level is too low; without one it is as before. */
  ghost predicate LastTooLow(levels: seq<real>, t: Thresholds, before: bool) {
    || (before && forall r <- levels :: !Decisive(r, t))
    || exists i :: 0 <= i < |levels| && levels[i] < t.rssiAlarm
                   && forall j :: i < j < |levels| ==> !Decisive(levels[j], t)
  }

  lemma LastTooLowNext(levels: seq<real>, t: Thresholds, before: bool, rssi: real)
    requires t.rssiAlarm <= t.rssiClear
    ensures LastTooLow(levels + [rssi], t, before) <==>
            rssi < t.rssiAlarm || (rssi < t.rssiClear && LastTooLow(levels, t, before))
  {
    var longer := levels + [rssi];
    if rssi < t.rssiAlarm {
      assert longer[|levels|] < t.rssiAlarm;
    } else {
      if i :| 0 <= i < |longer| && longer[i] < t.rssiAlarm && forall j :: i < j < |longer| ==> !Decisive(longer[j], t) {
        assert !Decisive(longer[|levels|], t);
        assert levels[i] < t.rssiAlarm && forall j :: i < j < |levels| ==> !Decisive(levels[j], t) by {
          assert forall j :: i < j < |levels| ==> levels[j] == longer[j];
        }
      }
      if before && forall r <- longer :: !Decisive(r, t) {
        assert rssi in longer && forall r <- levels :: r in longer;
      }
      if rssi < t.rssiClear && LastTooLow(levels, t, before) {
        if i :| 0 <= i < |levels| && levels[i] < t.rssiAlarm && forall j :: i < j < |levels| ==>
          !Decisive(levels[j], t) {
          assert longer[i] < t.rssiAlarm && forall j :: i < j < |longer| ==> !Decisive(longer[j], t);
        }
      }
    }
  }

  /** In every run a link is down exactly when the last decisive level measured on it was below the
      alarm threshold, or none was decisive and it began down. */
  lemma {:induction false} LevelDecides(start: World, t: Thresholds, actions: seq<Action>, link: string)
    requires t.rssiAlarm <= t.rssiClear
    ensures LinkOf(Play(start, t, actions), link) == Down <==>
            LastTooLow(Levels(actions, link), t, LinkOf(start, link) == Down)
    decreases |actions|
  {
    if actions != [] {
      var k := |actions| - 1;
      var w, a := Play(start, t, actions[..k]), actions[k];
      LevelDecides(start, t, actions[..k], link);
      StepOfLink(w, t, a, link);
      if a.Measure? && a.link == link {
        LastTooLowNext(Levels(actions[..k], link), t, LinkOf(start, link) == Down, a.rssi);
      } else {
        assert Levels(actions[..k], link) + [] == Levels(actions[..k], link);
      }
    }
  }

  /** One action, seen from one link. Short of down, a fade margin between its two thresholds keeps
      the link degraded or not, and outside them decides. */
  lemma StepOfLink(w: World, t: Thresholds, a: Action, link: string)
    ensures var v := Act(w, t, a);
            if a.Measure? && a.link == link then
              && (LinkOf(v, link) == Down <==>
                    (LinkOf(w, link) == Down && a.rssi < t.rssiClear)
                    || (LinkOf(w, link) != Down && a.rssi < t.rssiAlarm))
              && (LinkOf(v, link) != Down && a.margin.None? ==> LinkOf(v, link) == Up)
              && (LinkOf(v, link) != Down && a.margin.Some? && t.fadeMin <= t.fadeClear ==>
                    && (a.margin.value < t.fadeMin ==> LinkOf(v, link) == Degraded)
                    && (a.margin.value >= t.fadeClear ==> LinkOf(v, link) == Up)
                    && (t.fadeMin <= a.margin.value < t.fadeClear ==>
                          (LinkOf(v, link) == Degraded <==> LinkOf(w, link) == Degraded)))
            else LinkOf(v, link) == LinkOf(w, link)
  {
    if a.Measure? {
      var current := LinkOf(w, a.link);
      var next := NextLinkState(current, a.rssi, a.margin, t);
      PublishAllSent(w, Report(a.link, current, next));
    } else {
      ActHandles(w, t, a);
      HandleAllKeeps(Popped(w, a), Inputs(w, a));
    }
  }

  /** A steady level never makes a link go down and up by turns if and only if the alarm threshold
      is not above the clear threshold. */
  lemma SteadyIff(t: Thresholds)
    ensures (forall current: LinkState, rssi: real, margin: Option<real> ::
               var next := NextLinkState(current, rssi, margin, t);
               (NextLinkState(next, rssi, margin, t) == Down <==> next == Down))
            <==> t.rssiAlarm <= t.rssiClear
  {
    if t.rssiAlarm > t.rssiClear {
      var next := NextLinkState(Up, t.rssiClear, None, t);
      assert next == Down && NextLinkState(next, t.rssiClear, None, t) != Down;
    }
  }

  // --------------------------------------------------------------------- the clock's states

  /** The holdover expired with this input, the source being lost, and the source has not returned
      since. */
  ghost predicate ExpiredAt(c: Clock, inputs: seq<Input>, i: nat) {
    && i < |inputs| && inputs[i] == HoldoverExpired && Last(Sources(inputs[..i]), c != Locked)
    && SourceRestored !in inputs[i..]
  }

  ghost predicate Expired(c: Clock, inputs: seq<Input>) {
    (c == HoldoverOutOfSpec && SourceRestored !in inputs) || exists i: nat :: ExpiredAt(c, inputs, i)
  }

  lemma ExpiredAtNext(c: Clock, inputs: seq<Input>, input: Input, i: nat)
    ensures ExpiredAt(c, inputs + [input], i) <==>
            input != SourceRestored
            && (ExpiredAt(c, inputs, i)
                || (i == |inputs| && input == HoldoverExpired && Last(Sources(inputs), c != Locked)))
  {
    hide Sources, Last;
    var longer := inputs + [input];
    if i < |inputs| {
      assert longer[..i] == inputs[..i] && longer[i..] == inputs[i..] + [input];
    } else if i == |inputs| {
      assert longer[..i] == inputs && longer[i..] == [input];
    }
  }

  lemma ExpiredNext(c: Clock, inputs: seq<Input>, input: Input)
    ensures Expired(c, inputs + [input]) <==>
            input != SourceRestored
            && (Expired(c, inputs) || (input == HoldoverExpired && Last(Sources(inputs), c != Locked)))
  {
    hide Sources, Last, ExpiredAt;
    var longer := inputs + [input];
    if i: nat :| ExpiredAt(c, longer, i) { ExpiredAtNext(c, inputs, input, i); }
    if i: nat :| ExpiredAt(c, inputs, i) { ExpiredAtNext(c, inputs, input, i); }
    ExpiredAtNext(c, inputs, input, |inputs|);
  }

  lemma OutOfSpecNext(c: Clock, input: Input)
    requires Synchronized(c) && input != Reset
    ensures ClockNext(c, input) == HoldoverOutOfSpec <==>
            input != SourceRestored && (c == HoldoverOutOfSpec || (input == HoldoverExpired && c != Locked))
  {
  }

  /** A synchronized clock is out of specification exactly when its holdover expired so. */
  lemma {:induction false} OutOfSpecIff(c: Clock, inputs: seq<Input>)
    requires Synchronized(c) && Reset !in inputs
    ensures ClockAfter(c, inputs) == HoldoverOutOfSpec <==> Expired(c, inputs)
    decreases |inputs|
  {
    if inputs != [] {
      hide Expired, Sources, Last, ClockNext;
      var k := |inputs| - 1;
      assert inputs[k] in inputs && forall i <- inputs[..k] :: i in inputs;
      OutOfSpecIff(c, inputs[..k]);
      SynchronizedClock(c, inputs[..k]);
      ExpiredNext(c, inputs[..k], inputs[k]);
      assert inputs[..k] + [inputs[k]] == inputs;
      OutOfSpecNext(ClockAfter(c, inputs[..k]), inputs[k]);
    }
  }

  /** The sightings (true) and losses (false) of a source. */
  function Sightings(inputs: seq<Input>): seq<bool> {
    if inputs == [] then []
    else
      var k := |inputs| - 1;
      Sightings(inputs[..k])
      + (if inputs[k] == SourceDetected then [true] else if inputs[k] == SourceLost then [false] else [])
  }

  /** A clock that is not synchronized acquires exactly while a source was last sighted, not lost. */
  lemma {:induction false} AcquiresIff(c: Clock, inputs: seq<Input>)
    requires !Synchronized(c) && Reset !in inputs && CalibrationComplete !in inputs
    ensures ClockAfter(c, inputs) == if Last(Sightings(inputs), c == Acquiring) then Acquiring else Freerun
    decreases |inputs|
  {
    if inputs != [] {
      var k := |inputs| - 1;
      assert inputs[k] in inputs && forall i <- inputs[..k] :: i in inputs;
      AcquiresIff(c, inputs[..k]);
    }
  }

  /** A reset frees the clock; a completed calibration locks one that acquires and moves no other. */
  lemma ResetAndCalibration(c: Clock, inputs: seq<Input>)
    ensures ClockAfter(c, inputs + [Reset]) == Freerun
    ensures ClockAfter(c, inputs + [CalibrationComplete]) ==
            if ClockAfter(c, inputs) == Acquiring then Locked else ClockAfter(c, inputs)
  {
    assert (inputs + [Reset])[..|inputs|] == inputs && (inputs + [CalibrationComplete])[..|inputs|] == inputs;
  }

  /** The steps that steer the clock directly. An expired holdover raises the holdover alarm. */
  lemma StepOfClock(w: World, t: Thresholds)
    ensures Act(w, t, Command(Reset)).clock == Freerun
    ensures w.clock == Freerun ==> Act(w, t, Tick(true)).clock == Locked
    ensures w.clock != Freerun ==> Act(w, t, Tick(true)) == w
    ensures Act(w, t, Tick(false)) == w
    ensures w.clock == HoldoverInSpec ==>
              && Act(w, t, Expire).clock == HoldoverOutOfSpec
              && Act(w, t, Expire).sent == w.sent + [StateTransition(HoldoverInSpec, HoldoverOutOfSpec),
                                                     SyncHoldover(true)]
    ensures w.clock != HoldoverInSpec ==> Act(w, t, Expire) == w
  {
    HandleKeeps(w, Reset);
    HandleKeeps(w, SourceDetected);
    HandleKeeps(Handle(w, SourceDetected), CalibrationComplete);
    if w.clock == HoldoverInSpec {
      HandleKeeps(w, HoldoverExpired);
      var moved := w.(heard := w.heard + [HoldoverExpired], clock := HoldoverOutOfSpec);
      PublishAllSent(moved, Announce(HoldoverInSpec, HoldoverOutOfSpec));
    }
  }

  // --------------------------------------------------------------------- degraded links

  function DegradedOf(link: string): Kind {
    (m: Message) => if m.LinkDegraded? && m.link == link then Some(m.raised) else None
  }

  /** The alarm that stands for the link after some messages. */
  predicate DownStands(start: World, ms: seq<Message>, link: string) {
    Last(Flags(ms, DownOf(link)), LinkOf(start, link) == Down)
  }

  predicate DegradedStands(start: World, ms: seq<Message>, link: string) {
    Last(Flags(ms, DegradedOf(link)), LinkOf(start, link) == Degraded)
  }

  /** After each of the first messages at most one of the two alarms of the link stands, and after
      all of them the one that tells its state. */
  ghost predicate OneStands(start: World, w: World, link: string) {
    && (forall n :: 0 <= n <= |w.sent| ==>
          !(DownStands(start, w.sent[..n], link) && DegradedStands(start, w.sent[..n], link)))
    && (DownStands(start, w.sent, link) <==> LinkOf(w, link) == Down)
    && (DegradedStands(start, w.sent, link) <==> LinkOf(w, link) == Degraded)
  }

  lemma LastConcat(a: seq<bool>, b: seq<bool>, none: bool)
    ensures Last(a + b, none) == if b == [] then Last(a, none) else b[|b| - 1]
  {
    assert b == [] ==> a + b == a;
  }

  lemma StandsNext(start: World, ms: seq<Message>, m: Message, link: string)
    ensures DownStands(start, ms + [m], link) ==
            if m.LinkDown? && m.link == link then m.raised else DownStands(start, ms, link)
    ensures DegradedStands(start, ms + [m], link) ==
            if m.LinkDegraded? && m.link == link then m.raised else DegradedStands(start, ms, link)
  {
    FlagsConcat(ms, [m], DownOf(link));
    FlagsConcat(ms, [m], DegradedOf(link));
    OneFlag(m, DownOf(link));
    OneFlag(m, DegradedOf(link));
    LastConcat(Flags(ms, DownOf(link)), Flags([m], DownOf(link)), LinkOf(start, link) == Down);
    LastConcat(Flags(ms, DegradedOf(link)), Flags([m], DegradedOf(link)), LinkOf(start, link) == Degraded);
  }

  /** A report clears before it raises. */
  lemma ReportStands(start: World, ms: seq<Message>, link: string, current: LinkState, next: LinkState, n: nat)
    requires (DownStands(start, ms, link) <==> current == Down)
             && (DegradedStands(start, ms, link) <==> current == Degraded)
    requires current != next && n <= |Report(link, current, next)|
    ensures var so := ms + Report(link, current, next)[..n];
            && !(DownStands(start, so, link) && DegradedStands(start, so, link))
            && (n == |Report(link, current, next)| ==>
                  && (DownStands(start, so, link) <==> next == Down)
                  && (DegradedStands(start, so, link) <==> next == Degraded))
  {
    hide DownStands, DegradedStands;
    var report := Report(link, current, next);
    if n == 0 {
      assert ms + report[..0] == ms;
    } else {
      StandsNext(start, ms, report[0], link);
      if n == 1 {
        assert ms + report[..1] == ms + [report[0]];
      } else {
        StandsNext(start, ms + [report[0]], report[1], link);
        assert ms + report[..2] == ms + [report[0]] + [report[1]];
      }
    }
  }

  /** Messages of other links and of the clock. */
  lemma {:induction false} OthersStand(start: World, ms: seq<Message>, more: seq<Message>, link: string)
    requires forall m <- more :: (m.LinkDown? || m.LinkDegraded?) ==> m.link != link
    ensures DownStands(start, ms + more, link) == DownStands(start, ms, link)
    ensures DegradedStands(start, ms + more, link) == DegradedStands(start, ms, link)
    decreases |more|
  {
    if more == [] {
      assert ms + more == ms;
    } else {
      var k := |more| - 1;
      assert more[k] in more && forall m <- more[..k] :: m in more;
      OthersStand(start, ms, more[..k], link);
      StandsNext(start, ms + more[..k], more[k], link);
      assert ms + more[..k] + [more[k]] == ms + more;
    }
  }

  lemma {:induction false} HandleAllSent(w: World, inputs: seq<Input>) returns (more: seq<Message>)
    ensures HandleAll(w, inputs).sent == w.sent + more
    ensures forall m <- more :: m.SyncHoldover? || m.StateTransition?
    decreases |inputs|
  {
    if inputs == [] {
      more := [];
      assert w.sent + more == w.sent;
    } else {
      var k := |inputs| - 1;
      more := HandleAllSent(w, inputs[..k]);
      var v := HandleAll(w, inputs[..k]);
      var next := NextState(v.clock, inputs[k]);
      if next.Some? && next.value != v.clock {
        var fed := v.(heard := v.heard + [inputs[k]], clock := next.value);
        PublishAllSent(fed, Announce(v.clock, next.value));
        assert w.sent + more + Announce(v.clock, next.value) == w.sent + (more + Announce(v.clock, next.value));
        more := more + Announce(v.clock, next.value);
      }
    }
  }

  /** What one action publishes: the report of a change of the measured link, or messages of the
      clock. */
  lemma ActSent(w: World, t: Thresholds, a: Action) returns (more: seq<Message>)
    ensures Act(w, t, a).sent == w.sent + more
    ensures a.Measure? ==>
              var current, next := LinkOf(w, a.link), LinkOf(Act(w, t, a), a.link);
              more == if current == next then [] else Report(a.link, current, next)
    ensures !a.Measure? ==> Act(w, t, a).links == w.links && forall m <- more :: m.SyncHoldover? || m.StateTransition?
  {
    if a.Measure? {
      var current := LinkOf(w, a.link);
      var next := NextLinkState(current, a.rssi, a.margin, t);
      more := if current == next then [] else Report(a.link, current, next);
      PublishAllSent(w, more);
      assert w.sent + [] == w.sent;
    } else {
      ActHandles(w, t, a);
      more := HandleAllSent(Popped(w, a), Inputs(w, a));
      HandleAllKeeps(Popped(w, a), Inputs(w, a));
    }
  }

  lemma OneStandsNext(start: World, w: World, t: Thresholds, a: Action, link: string)
    requires OneStands(start, w, link)
    ensures OneStands(start, Act(w, t, a), link)
  {
    hide DownStands, DegradedStands, Act, Report;
    var v := Act(w, t, a);
    var more := ActSent(w, t, a);
    StepOfLink(w, t, a, link);
    forall n | 0 <= n <= |v.sent|
      ensures !(DownStands(start, v.sent[..n], link) && DegradedStands(start, v.sent[..n], link))
      ensures n == |v.sent| ==>
                && (DownStands(start, v.sent[..n], link) <==> LinkOf(v, link) == Down)
                && (DegradedStands(start, v.sent[..n], link) <==> LinkOf(v, link) == Degraded)
    {
      if n < |w.sent| {
        assert v.sent[..n] == w.sent[..n];
      } else {
        var k := n - |w.sent|;
        assert v.sent[..n] == w.sent + more[..k];
        StandsAfter(start, w, t, a, link, more, k);
      }
    }
    assert v.sent[..|v.sent|] == v.sent;
  }

  lemma StandsAfter(start: World, w: World, t: Thresholds, a: Action, link: string, more: seq<Message>, k: nat)
    requires OneStands(start, w, link) && k <= |more|
    requires a.Measure? ==>
               var current, next := LinkOf(w, a.link), LinkOf(Act(w, t, a), a.link);
               more == if current == next then [] else Report(a.link, current, next)
    requires !a.Measure? ==> Act(w, t, a).links == w.links && forall m <- more :: m.SyncHoldover? || m.StateTransition?
    ensures var so, v := w.sent + more[..k], Act(w, t, a);
            && !(DownStands(start, so, link) && DegradedStands(start, so, link))
            && (k == |more| ==>
                  && (DownStands(start, so, link) <==> LinkOf(v, link) == Down)
                  && (DegradedStands(start, so, link) <==> LinkOf(v, link) == Degraded))
  {
    hide DownStands, DegradedStands, Act;
    assert w.sent[..|w.sent|] == w.sent;
    StepOfLink(w, t, a, link);
    if a.Measure? && a.link == link && more != [] {
      hide Report;
      ReportStands(start, w.sent, link, LinkOf(w, link), LinkOf(Act(w, t, a), link), k);
    } else {
      forall m | m in more[..k] ensures (m.LinkDown? || m.LinkDegraded?) ==> m.link != link { assert m in more; }
      OthersStand(start, w.sent, more[..k], link);
    }
  }

  /** In every run the alarms published for a link stand one at a time, with none between a clear
      and the next raise, and what stands tells whether the link is down, degraded or up. */
  lemma {:induction false} OneAlarmAtATime(start: World, t: Thresholds, actions: seq<Action>, link: string)
    requires start.sent == []
    ensures OneStands(start, Play(start, t, actions), link)
    decreases |actions|
  {
    if actions != [] {
      var k := |actions| - 1;
      OneAlarmAtATime(start, t, actions[..k], link);
      OneStandsNext(start, Play(start, t, actions[..k]), t, actions[k], link);
    }
  }
}
