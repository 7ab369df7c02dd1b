/** The mutable objects behind confirmed commit: the fake clock of internal/clock, the
    `Confirmed` tracker and the commit operations, proved to follow module ConfirmedCommit. */
module Confirmed {
  import opened Wrappers
  import opened Leaves
  import opened Datastores
  import opened Spec = ConfirmedCommit
  import M = Memory

  datatype CommitError = Store(error: Error) | AccessDenied

  class FakeClock {
    var now: Time
    var timers: seq<Timer>

    constructor ()
      ensures now == 0 && timers == []
    {
      now, timers := 0, [];
    }

    /** `nextDueLocked`. */
    method NextDueLocked(target: Time) returns (due: Option<nat>)
      ensures due == NextDue(timers, target)
    {
      due := None;
      for i := 0 to |timers|
        invariant due == NextDue(timers[..i], target)
      {
        assert timers[..i + 1][..i] == timers[..i];
        if timers[i].active && timers[i].deadline <= target {
          if due.None? || timers[i].deadline < timers[due.value].deadline { due := Some(i); }
        }
      }
      assert timers[..|timers|] == timers;
    }

    method AfterFunc(d: int, seq_: nat) returns (timer: nat)
      modifies this`timers
      ensures timer == |old(timers)| && timers == old(timers) + [Timer(now + d, seq_, true)]
    {
      timer := |timers|;
      timers := timers + [Timer(now + d, seq_, true)];
    }

    method Stop(timer: nat) returns (wasActive: bool)
      requires timer < |timers|
      modifies this`timers
      ensures wasActive == old(timers[timer].active) && timers == StopTimer(old(timers), timer)
    {
      wasActive := timers[timer].active;
      timers := timers[timer := timers[timer].(active := false)];
    }

    method Reset(timer: nat, d: int) returns (wasActive: bool)
      requires timer < |timers|
      modifies this`timers
      ensures wasActive == old(timers[timer].active)
      ensures timers == old(timers)[timer := old(timers[timer]).(deadline := now + d, active := true)]
    {
      wasActive := timers[timer].active;
      timers := timers[timer := timers[timer].(deadline := now + d, active := true)];
    }
  }

  class Tracker {
    const clock: FakeClock
    const store: M.Memory
    var next: nat
    var pend: Option<Pend>

    constructor (store: M.Memory)
      requires store.View() == EMPTY
      ensures this.store == store && fresh(clock)
      ensures View() == START
    {
      var c := new FakeClock();
      this.store, this.clock := store, c;
      next, pend := 0, None;
    }

    ghost function View(): Machine
      reads this, clock, store
    {
      Machine(store.View(), clock.now, clock.timers, next, pend)
    }

    /** The timer of the pending commit exists. */
    ghost predicate Valid()
      reads this, clock, store
    {
      Armed(View())
    }

    /** `Apply`: the commit runs inside, and is refused while another session has one pending. The
        rollback target may be any earlier snapshot. */
    method Apply(session: nat, timeout: int, target: Values, saved: bool) returns (err: Option<CommitError>)
      requires Valid()
      modifies this, clock, store
      ensures Valid()
      ensures var was := old(View());
              View() == if !Accepted(store.options, was, Action.ConfirmedCommit(session, timeout, saved)) then was
                        else Arm(was.(store := Step(store.options, was.store, Commit(saved), was.now)),
                                 session, timeout, target)
      ensures err.None? <==> Accepted(store.options, old(View()), Action.ConfirmedCommit(session, timeout, saved))
      ensures err == Some(AccessDenied) <==> Denied(old(View()), session)
      ensures err.None? ==>
                && pend.Some? && pend.value.session == session && pend.value.timer < |clock.timers|
                && pend.value.target == (if old(pend).Some? then old(pend).value.target else target)
                && clock.timers[pend.value.timer].active
                && clock.timers[pend.value.timer].deadline == clock.now + if timeout <= 0 then 600 else timeout
    {
      if pend.Some? && pend.value.session != session { return Some(AccessDenied); }
      var failed := store.Commit(saved, clock.now);
      if failed.Some? { return Some(Store(failed.value)); }
      ArmTimer(session, timeout, target);
      return None;
    }

    /** The rest of `Apply`: a follow-up restarts the timer, a first commit starts one. */
    method ArmTimer(session: nat, timeout: int, target: Values)
      requires Valid()
      modifies this, clock
      ensures Valid() && View() == Arm(old(View()), session, timeout, target)
      ensures pend.Some? && (old(pend).Some? ==> pend == old(pend))
      ensures old(pend).None? ==> pend.value.session == session && pend.value.target == target
      ensures pend.value.timer < |clock.timers| && clock.timers[pend.value.timer].active
      ensures clock.timers[pend.value.timer].deadline == clock.now + if timeout <= 0 then 600 else timeout
    {
      ArmKeepsArmed(View(), session, timeout, target);
      var wait := if timeout <= 0 then DEFAULT_CONFIRM_TIMEOUT else timeout;
      if pend.Some? {
        assert pend.value.timer in Active(clock.timers);
        var _ := clock.Reset(pend.value.timer, wait);
        return;
      }
      next := next + 1;
      var timer := clock.AfterFunc(wait, next);
      pend := Some(Pend(next, session, timer, target));
    }

    /** `Confirm`, and `Close`, which does the same at shutdown. */
    method Confirm()
      requires Valid()
      modifies this, clock
      ensures Valid() && View() == Settle(old(View()))
    {
      ActKeepsArmed(store.options, View(), Action.Close);
      if pend.None? { return; }
      assert pend.value.timer in Active(clock.timers);
      var _ := clock.Stop(pend.value.timer);
      pend := None;
    }

    method SessionEnded(session: nat, saved: bool) returns (err: Option<Error>)
      requires Valid()
      modifies this, clock, store
      ensures Valid()
      ensures View() == Act(store.options, old(View()), Action.SessionEnded(session, saved))
    {
      ActKeepsArmed(store.options, View(), Action.SessionEnded(session, saved));
      if pend.None? || pend.value.session != session { return None; }
      assert pend.value.timer in Active(clock.timers);
      var target := pend.value.target;
      var _ := clock.Stop(pend.value.timer);
      pend := None;
      err := store.Restore(target, saved, clock.now);
    }

    /** The timer callback. */
    method FireCallback(seq_: nat, saved: bool)
      modifies this, store
      ensures View() == Fire(store.options, old(View()), seq_, saved)
    {
      if pend.None? || pend.value.seq_ != seq_ { return; }
      var target := pend.value.target;
      pend := None;
      var _ := store.Restore(target, saved, clock.now);
    }

    /** `FakeClock.Advance`, running the callbacks of this tracker's timers. */
    method Advance(d: int, saved: bool)
      requires Valid()
      modifies this, clock, store
      ensures Valid()
      ensures View() == Act(store.options, old(View()), AdvanceClock(d, saved))
    {
      ActKeepsArmed(store.options, View(), AdvanceClock(d, saved));
      if d < 0 { return; }
      hide Step, Armed, Fire, FireDue, NextDue, StopTimer;
      var target := clock.now + d;
      var due := clock.NextDueLocked(target);
      while due.Some?
        invariant due == NextDue(clock.timers, target)
        invariant FireDue(store.options, View(), target, saved) == FireDue(store.options, old(View()), target, saved)
        decreases Active(clock.timers)
      {
        assert due.value in Active(clock.timers);
        var timer := clock.timers[due.value];
        FireDueStep(store.options, View(), target, saved);
        var _ := clock.Stop(due.value);
        clock.now := timer.deadline;
        FireCallback(timer.seq_, saved);
        due := clock.NextDueLocked(target);
      }
      FireDueStep(store.options, View(), target, saved);
      clock.now := target;
    }

    /** The `<commit>` operation without `<confirmed/>`. */
    method PlainCommit(saved: bool) returns (err: Option<Error>)
      requires Valid()
      modifies this, clock, store
      ensures Valid()
      ensures View() == Act(store.options, old(View()), Action.PlainCommit(saved))
      ensures err.None? <==> Effective(store.options, old(store.View()), Commit(saved))
    {
      err := store.Commit(saved, clock.now);
      if err.Some? { return; }
      Confirm();
    }

    /** `commitConfirmed`: the rollback target is a snapshot taken before the commit applies. */
    method ConfirmedCommit(session: nat, timeout: int, saved: bool) returns (err: Option<CommitError>)
      requires Valid()
      modifies this, clock, store
      ensures Valid()
      ensures View() == Act(store.options, old(View()), Action.ConfirmedCommit(session, timeout, saved))
      ensures err.None? <==> Accepted(store.options, old(View()), Action.ConfirmedCommit(session, timeout, saved))
    {
      var snapshot := store.Snapshot();
      err := Apply(session, timeout, snapshot, saved);
    }
  }
}
