/** Confirmed commit (internal/netconf/ops) over the datastores and the fake clock, each
    operation one atomic step: what a timeout or the end of the owning session reverts to. */
module ConfirmedCommit {
  import opened Wrappers
  import opened Leaves
  import opened Datastores

  /** Seconds (section 8.4.1 of RFC 4741). */
  const DEFAULT_CONFIRM_TIMEOUT: int := 600

  /** A timer of the fake clock; its callback is `fire(seq)`. */
  datatype Timer = Timer(deadline: Time, seq_: nat, active: bool)

  /** The confirmed commit waiting for confirmation; `target` is what its rollback restores. */
  datatype Pend = Pend(seq_: nat, session: nat, timer: nat, target: Values)

  datatype Machine = Machine(store: State, now: Time, timers: seq<Timer>, next: nat, pend: Option<Pend>)

  datatype Action =
    | PlainCommit(saved: bool)
    | ConfirmedCommit(session: nat, timeout: int, saved: bool)
    | SessionEnded(session: nat, saved: bool)
    | Close
    | AdvanceClock(d: int, saved: bool)
    | SetClock(t: Time)
    | StoreOp(op: Op)

  // ------------------------------------------------------------------ clock

  /** `nextDueLocked`: the active timer with the earliest deadline not after `target`; the
      earlier scheduled one on a tie. */
  function NextDue(timers: seq<Timer>, target: Time): (r: Option<nat>)
    ensures r.Some? ==> r.value < |timers| && timers[r.value].active && timers[r.value].deadline <= target
    ensures forall i :: 0 <= i < |timers| && timers[i].active && timers[i].deadline <= target ==>
              r.Some? && timers[r.value].deadline <= timers[i].deadline
              && (i < r.value ==> timers[r.value].deadline < timers[i].deadline)
  {
    if timers == [] then None
    else
      var k := |timers| - 1;
      var due := NextDue(timers[..k], target);
      if !timers[k].active || timers[k].deadline > target then due
      else if due.None? || timers[k].deadline < timers[due.value].deadline then Some(k)
      else due
  }

  function Active(timers: seq<Timer>): set<nat> {
    set i | 0 <= i < |timers| && timers[i].active
  }

  function StopTimer(timers: seq<Timer>, i: nat): (r: seq<Timer>)
    ensures |r| == |timers|
    ensures Active(r) == Active(timers) - {i}
  {
    if i < |timers| then timers[i := timers[i].(active := false)] else timers
  }

  // ------------------------------------------------------------- transitions

  function EffectiveTimeout(timeout: int): int {
    if timeout <= 0 then DEFAULT_CONFIRM_TIMEOUT else timeout
  }

  /** `Confirm` and `Close`: the pending commit ends without being reverted. */
  function Settle(m: Machine): Machine {
    if m.pend.None? then m
    else m.(timers := StopTimer(m.timers, m.pend.value.timer), pend := None)
  }

  function RunRollback(o: Options, m: Machine, target: Values, saved: bool): Machine {
    m.(store := Step(o, m.store, Restore(target, saved), m.now))
  }

  /** `fire`: reverts the pending commit if it is still the one the timer was armed for. */
  function Fire(o: Options, m: Machine, seq_: nat, saved: bool): Machine {
    if m.pend.None? || m.pend.value.seq_ != seq_ then m
    else RunRollback(o, m.(pend := None), m.pend.value.target, saved)
  }

  /** `FakeClock.Advance`: fires every timer that becomes due, in deadline order. */
  function FireDue(o: Options, m: Machine, target: Time, saved: bool): Machine
    decreases Active(m.timers)
  {
    match NextDue(m.timers, target)
    case None => m.(now := target)
    case Some(i) =>
      var timer := m.timers[i];
      assert i in Active(m.timers);
      FireDue(o, Fire(o, m.(timers := StopTimer(m.timers, i), now := timer.deadline), timer.seq_, saved), target, saved)
  }

  lemma {:induction false} FireDueStep(o: Options, m: Machine, target: Time, saved: bool)
    ensures FireDue(o, m, target, saved) ==
            match NextDue(m.timers, target)
            case None => m.(now := target)
            case Some(i) =>
              var timer := m.timers[i];
              FireDue(o, Fire(o, m.(timers := StopTimer(m.timers, i), now := timer.deadline), timer.seq_, saved),
                      target, saved)
  {
  }

  predicate Denied(m: Machine, session: nat) {
    m.pend.Some? && m.pend.value.session != session
  }

  /** A confirmed commit that is neither refused nor fails to apply. */
  predicate Accepted(o: Options, m: Machine, a: Action) {
    a.ConfirmedCommit? && !Denied(m, a.session) && Effective(o, m.store, Commit(a.saved))
  }

  /** `Confirmed.Apply` after the commit took effect: arm the rollback, or restart its timer. */
  function Arm(m: Machine, session: nat, timeout: int, target: Values): Machine {
    var deadline := m.now + EffectiveTimeout(timeout);
    if m.pend.Some? then
      var i := m.pend.value.timer;
      if i < |m.timers| then m.(timers := m.timers[i := m.timers[i].(deadline := deadline, active := true)]) else m
    else
      var seq_ := m.next + 1;
      m.(next := seq_,
         pend := Some(Pend(seq_, session, |m.timers|, target)),
         timers := m.timers + [Timer(deadline, seq_, true)])
  }

  function Act(o: Options, m: Machine, a: Action): Machine {
    match a
    case PlainCommit(saved) =>
      var committed := m.(store := Step(o, m.store, Commit(saved), m.now));
      if Effective(o, m.store, Commit(saved)) then Settle(committed) else committed
    case ConfirmedCommit(session, timeout, saved) =>
      if !Accepted(o, m, a) then m
      else Arm(m.(store := Step(o, m.store, Commit(saved), m.now)), session, timeout, m.store.running)
    case SessionEnded(session, saved) =>
      if m.pend.None? || m.pend.value.session != session then m
      else RunRollback(o, Settle(m), m.pend.value.target, saved)
    case Close => Settle(m)
    case AdvanceClock(d, saved) => if d < 0 then m else FireDue(o, m, m.now + d, saved)
    case SetClock(t) => m.(now := t)
    case StoreOp(op) => m.(store := Step(o, m.store, op, m.now))
  }

  const START := Machine(EMPTY, 0, [], 0, None)

  function Play(o: Options, m: Machine, trace: seq<Action>): Machine {
    if trace == [] then m
    else Act(o, Play(o, m, trace[..|trace| - 1]), trace[|trace| - 1])
  }

  // --------------------------------------------------------- timer invariant

  /** The pending commit owns the only active timer, and that timer is armed for it. */
  ghost predicate Armed(m: Machine) {
    && (m.pend.None? ==> Active(m.timers) == {})
    && (m.pend.Some? ==>
          && Active(m.timers) == {m.pend.value.timer}
          && m.timers[m.pend.value.timer].seq_ == m.pend.value.seq_)
  }

  ghost predicate IsDue(m: Machine, target: Time) {
    m.pend.Some? && m.pend.value.timer < |m.timers| && m.timers[m.pend.value.timer].deadline <= target
  }

  /** Advancing the clock runs the rollback exactly when the pending timer is due, and is
      otherwise only the passage of time. */
  lemma AdvanceOutcome(o: Options, m: Machine, target: Time, saved: bool)
    requires Armed(m)
    ensures FireDue(o, m, target, saved) ==
              if IsDue(m, target) then
                var i := m.pend.value.timer;
                RunRollback(o, m.(now := m.timers[i].deadline, timers := StopTimer(m.timers, i), pend := None),
                            m.pend.value.target, saved).(now := target)
              else m.(now := target)
  {
    var due := NextDue(m.timers, target);
    if due.Some? {
      assert due.value in Active(m.timers);
      var i := m.pend.value.timer;
      var fired := Fire(o, m.(timers := StopTimer(m.timers, i), now := m.timers[i].deadline), m.timers[i].seq_, saved);
      assert Active(fired.timers) == {};
      NothingDue(fired.timers, target);
    } else if IsDue(m, target) {
      assert m.pend.value.timer in Active(m.timers);
    }
  }

  lemma NothingDue(timers: seq<Timer>, target: Time)
    requires Active(timers) == {}
    ensures NextDue(timers, target).None?
  {
    assert forall i :: 0 <= i < |timers| && timers[i].active ==> i in Active(timers);
  }

  lemma ActKeepsArmed(o: Options, m: Machine, a: Action)
    requires Armed(m)
    ensures Armed(Act(o, m, a))
  {
    match a
    case AdvanceClock(d, saved) => if d >= 0 { AdvanceOutcome(o, m, m.now + d, saved); }
    case ConfirmedCommit(session, timeout, saved) =>
      if Accepted(o, m, a) {
        var committed := m.(store := Step(o, m.store, Commit(saved), m.now));
        ArmKeepsArmed(committed, session, timeout, m.store.running);
      }
    case _ =>
  }

  lemma ArmKeepsArmed(m: Machine, session: nat, timeout: int, target: Values)
    requires Armed(m)
    ensures Armed(Arm(m, session, timeout, target))
  {
    var r := Arm(m, session, timeout, target);
    if m.pend.Some? {
      assert m.pend.value.timer in Active(m.timers);
      assert Active(r.timers) == Active(m.timers);
    } else {
      assert Active(r.timers) == Active(m.timers) + {|m.timers|};
    }
  }

  lemma {:induction false} AlwaysArmed(o: Options, trace: seq<Action>)
    ensures Armed(Play(o, START, trace))
  {
    if trace != [] {
      AlwaysArmed(o, trace[..|trace| - 1]);
      ActKeepsArmed(o, Play(o, START, trace[..|trace| - 1]), trace[|trace| - 1]);
    }
  }

  // --------------------------------------------------------- rollback target

  /** The confirmed commits still unconfirmed: who made them, what running held before the first
      and when the latest times out. */
  datatype Chain = Chain(owner: nat, base: Values, deadline: Time)

  /** The chain after one more action, which met these datastores at this time. Only its owner may
      extend it, and only by a commit that goes through; such a plain commit, a shutdown, the end of
      the owner and the deadline end it. */
  function NextChain(o: Options, store: State, now: Time, c: Option<Chain>, a: Action): Option<Chain> {
    match a
    case PlainCommit(saved) => if o.valid(store.candidate) && (o.persists ==> saved) then None else c
    case ConfirmedCommit(session, timeout, saved) =>
      if !o.valid(store.candidate) || (o.persists && !saved) || (c.Some? && c.value.owner != session) then c
      else
        Some(Chain(session, if c.Some? then c.value.base else store.running,
                   now + if timeout <= 0 then 600 else timeout))
    case SessionEnded(session, _) => if c.Some? && c.value.owner == session then None else c
    case Close => None
    case AdvanceClock(d, _) => if c.Some? && d >= 0 && c.value.deadline <= now + d then None else c
    case SetClock(_) => c
    case StoreOp(_) => c
  }

  /** The chain pending at the end of a run, read off its actions and the datastores and the time
      they met. */
  function ChainOf(o: Options, trace: seq<Action>): Option<Chain> {
    if trace == [] then None
    else
      var before := trace[..|trace| - 1];
      var m := Play(o, START, before);
      NextChain(o, m.store, m.now, ChainOf(o, before), trace[|trace| - 1])
  }

  /** What is pending is the chain. */
  ghost predicate IsChain(m: Machine, c: Option<Chain>) {
    if m.pend.None? then c.None?
    else
      && m.pend.value.timer < |m.timers|
      && c == Some(Chain(m.pend.value.session, m.pend.value.target, m.timers[m.pend.value.timer].deadline))
  }

  /** Running and startup are `target`, candidate is as before; or, when the startup file could not
      be written, no datastore moved at all. */
  ghost predicate RolledBack(o: Options, before: State, after: State, target: Values, saved: bool) {
    && after.candidate == before.candidate
    && (if o.persists ==> saved then after.running == target && after.startup == target else after == before)
  }

  /** The datastores and the time after one more action, given the chain before and after it: a
      commit is made unless it would touch another session's chain, and a chain that the end of its
      owner or its deadline ended is rolled back, at that moment. */
  ghost predicate Moves(o: Options, m: Machine, c: Option<Chain>, a: Action, r: Machine, d: Option<Chain>) {
    match a
    case PlainCommit(saved) => r.now == m.now && r.store == Step(o, m.store, Commit(saved), m.now)
    case ConfirmedCommit(session, _, saved) =>
      && r.now == m.now
      && r.store == if c.Some? && c.value.owner != session then m.store else Step(o, m.store, Commit(saved), m.now)
    case SessionEnded(_, saved) =>
      && r.now == m.now
      && r.store == if c.Some? && d.None? then Step(o, m.store, Restore(c.value.base, saved), m.now) else m.store
    case Close => r.now == m.now && r.store == m.store
    case AdvanceClock(time, saved) =>
      && r.now == (if time < 0 then m.now else m.now + time)
      && r.store ==
           if c.Some? && d.None? then Step(o, m.store, Restore(c.value.base, saved), c.value.deadline) else m.store
    case SetClock(t) => r.now == t && r.store == m.store
    case StoreOp(op) => r.now == m.now && r.store == Step(o, m.store, op, m.now)
  }

  lemma PendInTimers(m: Machine)
    requires Armed(m) && m.pend.Some?
    ensures m.pend.value.timer < |m.timers| && m.timers[m.pend.value.timer].active
  {
    assert m.pend.value.timer in Active(m.timers);
  }

  /** A confirmed commit that is made leaves its session's chain pending, with a new deadline. */
  lemma ArmedChain(m: Machine, session: nat, timeout: int, target: Values)
    requires Armed(m) && (m.pend.Some? ==> m.pend.value.session == session)
    ensures var r := Arm(m, session, timeout, target);
            && IsChain(r, Some(Chain(session, if m.pend.Some? then m.pend.value.target else target,
                                     m.now + if timeout <= 0 then 600 else timeout)))
            && r.now == m.now && r.store == m.store
  {
    if m.pend.Some? { PendInTimers(m); }
  }

  lemma IneffectiveStep(o: Options, s: State, op: Op, now: Time)
    ensures !Effective(o, s, op) ==> Step(o, s, op, now) == s
  {
  }

  /** One action, on any machine whose pending commit is a chain. */
  lemma ActFollowsChain(o: Options, m: Machine, c: Option<Chain>, a: Action)
    requires Armed(m) && IsChain(m, c)
    ensures var r, d := Act(o, m, a), NextChain(o, m.store, m.now, c, a);
            IsChain(r, d) && Moves(o, m, c, a, r, d)
  {
    if m.pend.Some? { PendInTimers(m); }
    hide Step, FireDue, Arm, Active, Armed;
    match a
    case ConfirmedCommit(session, timeout, saved) =>
      IneffectiveStep(o, m.store, Commit(saved), m.now);
      if Accepted(o, m, a) {
        ArmedChain(m.(store := Step(o, m.store, Commit(saved), m.now)), session, timeout, m.store.running);
      }
    case AdvanceClock(d, saved) => if d >= 0 { AdvanceFollowsChain(o, m, c, d, saved); }
    case _ =>
  }

  lemma AdvanceFollowsChain(o: Options, m: Machine, c: Option<Chain>, d: int, saved: bool)
    requires Armed(m) && IsChain(m, c) && d >= 0
    ensures var r, e := Act(o, m, AdvanceClock(d, saved)), NextChain(o, m.store, m.now, c, AdvanceClock(d, saved));
            IsChain(r, e) && Moves(o, m, c, AdvanceClock(d, saved), r, e)
  {
    AdvanceOutcome(o, m, m.now + d, saved);
    hide Step, FireDue, Active, Armed;
  }

  /** In every run what is pending is the chain read off the run: it reverts to the base of the
      chain, at its deadline. */
  lemma {:induction false} TargetIsChainBase(o: Options, trace: seq<Action>)
    ensures IsChain(Play(o, START, trace), ChainOf(o, trace))
  {
    if trace != [] {
      var before := trace[..|trace| - 1];
      TargetIsChainBase(o, before);
      AlwaysArmed(o, before);
      ActFollowsChain(o, Play(o, START, before), ChainOf(o, before), trace[|trace| - 1]);
    }
  }

  /** So in every run the datastores move as the chain says. */
  lemma RunFollowsChain(o: Options, trace: seq<Action>, a: Action)
    ensures var m, r := Play(o, START, trace), Play(o, START, trace + [a]);
            && (r.pend.Some? <==> ChainOf(o, trace + [a]).Some?)
            && Moves(o, m, ChainOf(o, trace), a, r, ChainOf(o, trace + [a]))
  {
    hide Act;
    assert (trace + [a])[..|trace|] == trace;
    TargetIsChainBase(o, trace);
    AlwaysArmed(o, trace);
    ActFollowsChain(o, Play(o, START, trace), ChainOf(o, trace), a);
  }

  /** The end of the owning session, or the clock reaching the deadline, puts running and startup
      back to the base of the chain whatever happened in between. The end of any other session and
      an earlier moment revert nothing. */
  lemma RevertsToChainBase(o: Options, trace: seq<Action>, a: Action)
    requires ChainOf(o, trace).Some? && (a.SessionEnded? || a.AdvanceClock?)
    ensures var m, r, c := Play(o, START, trace), Play(o, START, trace + [a]), ChainOf(o, trace).value;
            if (a.SessionEnded? && a.session == c.owner) || (a.AdvanceClock? && a.d >= 0 && c.deadline <= m.now + a.d)
            then r.pend.None? && RolledBack(o, m.store, r.store, c.base, a.saved)
            else ChainOf(o, trace + [a]) == Some(c) && r.pend.Some? && r.store == m.store
  {
    hide Play, Step, RolledBack;
    assert (trace + [a])[..|trace|] == trace;
    RunFollowsChain(o, trace, a);
    var m, c := Play(o, START, trace), ChainOf(o, trace).value;
    RestoreRollsBack(o, m.store, c.base, a.saved, if a.SessionEnded? then m.now else c.deadline);
  }

  lemma RestoreRollsBack(o: Options, s: State, target: Values, saved: bool, now: Time)
    ensures RolledBack(o, s, Step(o, s, Restore(target, saved), now), target, saved)
  {
  }

  // ----------------------------------------------------------------- end to end

  /** Actions that neither extend nor end the chain of a session. */
  predicate Spares(a: Action, session: nat) {
    || a.StoreOp? || a.SetClock?
    || ((a.SessionEnded? || a.ConfirmedCommit?) && a.session != session)
  }

  lemma {:induction false} ChainSpared(o: Options, trace: seq<Action>, rest: seq<Action>)
    requires ChainOf(o, trace).Some? && forall a <- rest :: Spares(a, ChainOf(o, trace).value.owner)
    ensures ChainOf(o, trace + rest) == ChainOf(o, trace)
  {
    if rest == [] {
      assert trace + rest == trace;
    } else {
      var k := |rest| - 1;
      assert rest[k] in rest;
      ChainSpared(o, trace, rest[..k]);
      assert trace + rest == (trace + rest[..k]) + [rest[k]];
      ChainNext(o, trace + rest[..k], rest[k]);
      hide Play;
    }
  }

  /** A first confirmed commit, whatever is written and attempted afterwards: once the clock reaches
      its timeout without a confirmation, running and startup are what running was before it. */
  lemma UnconfirmedIsReverted(
    o: Options, trace: seq<Action>, session: nat, timeout: int, saved: bool, rest: seq<Action>, d: int, kept: bool)
    requires ChainOf(o, trace).None?
    requires Effective(o, Play(o, START, trace).store, Commit(saved)) && (o.persists ==> kept)
    requires forall a <- rest :: Spares(a, session)
    requires var before := Play(o, START, trace);
             var later := Play(o, START, trace + [ConfirmedCommit(session, timeout, saved)] + rest);
             d >= 0 && later.now + d >= before.now + if timeout <= 0 then 600 else timeout
    ensures var commit := [ConfirmedCommit(session, timeout, saved)];
            var before, made := Play(o, START, trace), Play(o, START, trace + commit);
            var after := Play(o, START, trace + commit + rest + [AdvanceClock(d, kept)]);
            && made.pend.Some? && made.store.running == before.store.candidate
            && after.pend.None? && after.store.running == before.store.running
            && after.store.startup == before.store.running
  {
    hide Play, ChainOf, Act, Effective;
    var commit, advance := ConfirmedCommit(session, timeout, saved), AdvanceClock(d, kept);
    FirstCommitPends(o, trace, session, timeout, saved);
    ChainSpared(o, trace + [commit], rest);
    RevertsToChainBase(o, trace + [commit] + rest, advance);
  }

  /** The first confirmed commit of a chain is made, and pending. */
  lemma FirstCommitPends(o: Options, trace: seq<Action>, session: nat, timeout: int, saved: bool)
    requires ChainOf(o, trace).None? && Effective(o, Play(o, START, trace).store, Commit(saved))
    ensures var before, made := Play(o, START, trace), trace + [ConfirmedCommit(session, timeout, saved)];
            && ChainOf(o, made) ==
                 Some(Chain(session, before.store.running, before.now + if timeout <= 0 then 600 else timeout))
            && Play(o, START, made).pend.Some? && Play(o, START, made).store.running == before.store.candidate
  {
    hide Play, Act, Step, ChainOf;
    var commit := ConfirmedCommit(session, timeout, saved);
    RunFollowsChain(o, trace, commit);
    ChainNext(o, trace, commit);
    CommitCopies(o, Play(o, START, trace).store, saved, Play(o, START, trace).now);
  }

  lemma ChainNext(o: Options, trace: seq<Action>, a: Action)
    ensures var m := Play(o, START, trace);
            ChainOf(o, trace + [a]) == NextChain(o, m.store, m.now, ChainOf(o, trace), a)
  {
    hide Play, NextChain;
    assert (trace + [a])[..|trace|] == trace;
  }

  lemma CommitCopies(o: Options, s: State, saved: bool, now: Time)
    requires Effective(o, s, Commit(saved))
    ensures Step(o, s, Commit(saved), now).running == s.candidate
  {
  }

  // -------------------------------------------------------------- confirmation

  /** Actions that neither commit nor write. */
  predicate Quiet(a: Action) {
    a.SessionEnded? || a.Close? || a.AdvanceClock? || a.SetClock?
  }

  /** With nothing pending, only commits and writes move the datastores. */
  lemma {:induction false} NothingPendingNothingReverts(o: Options, m: Machine, quiet: seq<Action>)
    requires Armed(m) && m.pend.None?
    requires forall a <- quiet :: Quiet(a)
    ensures var r := Play(o, m, quiet); Armed(r) && r.pend.None? && r.store == m.store
  {
    if quiet != [] {
      assert quiet[|quiet| - 1] in quiet;
      var before := quiet[..|quiet| - 1];
      NothingPendingNothingReverts(o, m, before);
      var mid := Play(o, m, before);
      ActKeepsArmed(o, mid, quiet[|quiet| - 1]);
      if quiet[|quiet| - 1].AdvanceClock? && quiet[|quiet| - 1].d >= 0 {
        AdvanceOutcome(o, mid, mid.now + quiet[|quiet| - 1].d, quiet[|quiet| - 1].saved);
      }
    }
  }

  /** After a confirming commit, from any reachable point and on any session, no later clock
      advance, session end or shutdown changes a datastore. */
  lemma ConfirmedForGood(o: Options, trace: seq<Action>, saved: bool, quiet: seq<Action>)
    requires Effective(o, Play(o, START, trace).store, Commit(saved))
    requires forall a <- quiet :: Quiet(a)
    ensures var committed := Play(o, START, trace + [PlainCommit(saved)]);
            && committed.store.running == Play(o, START, trace).store.candidate
            && Play(o, committed, quiet).store == committed.store
  {
    AlwaysArmed(o, trace + [PlainCommit(saved)]);
    assert (trace + [PlainCommit(saved)])[..|trace|] == trace;
    NothingPendingNothingReverts(o, Play(o, START, trace + [PlainCommit(saved)]), quiet);
  }

  /** A confirmed commit of another session, or one that does not apply, changes nothing:
      the previous confirmed commit stays armed with its old deadline. */
  lemma RefusedChangesNothing(o: Options, trace: seq<Action>, a: Action)
    requires a.ConfirmedCommit? && !Accepted(o, Play(o, START, trace), a)
    ensures Play(o, START, trace + [a]) == Play(o, START, trace)
    ensures ChainOf(o, trace + [a]) == ChainOf(o, trace)
  {
    assert (trace + [a])[..|trace|] == trace;
    TargetIsChainBase(o, trace);
    TargetIsChainBase(o, trace + [a]);
  }
}
