/** Confirmed commit at the grain of its lock: every critical section of `Confirmed` is one
    move, rollbacks run outside the lock, and timer callbacks may come late, twice or with
    any sequence number. */
module CommitLocks {
  import opened Wrappers
  import opened Leaves
  import opened Datastores

  datatype Pend = Pend(seq_: nat, session: nat, target: Values)

  /** A rollback taken out of the lock and not run yet. */
  datatype Claim = Claim(seq_: nat, target: Values)

  /** `resolved` counts how often each armed commit was confirmed, closed or claimed, `claimed`
      the claims among them and `executed` the rollbacks that ran. */
  datatype Locks = Locks(
    store: State, next: nat, pend: Option<Pend>, queue: seq<Claim>,
    resolved: multiset<nat>, claimed: multiset<nat>, executed: multiset<nat>)

  datatype Move =
    | StoreOp(op: Op, now: Time)
    | ApplyBlock(session: nat, snapshot: Values, saved: bool, now: Time)
    | ConfirmBlock
    | CloseBlock
    | EndBlock(session: nat)
    | FireBlock(seq_: nat)
    | RunClaim(k: nat, saved: bool, now: Time)

  function Resolve(s: Locks): Locks
    requires s.pend.Some?
  {
    s.(pend := None, resolved := s.resolved + multiset{s.pend.value.seq_})
  }

  function TakeClaim(s: Locks): Locks
    requires s.pend.Some?
  {
    Resolve(s).(queue := s.queue + [Claim(s.pend.value.seq_, s.pend.value.target)],
                claimed := s.claimed + multiset{s.pend.value.seq_})
  }

  function Act(o: Options, s: Locks, move: Move): Locks {
    match move
    case StoreOp(op, now) => s.(store := Step(o, s.store, op, now))
    case ApplyBlock(session, snapshot, saved, now) =>
      if s.pend.Some? && s.pend.value.session != session then s
      else if !Effective(o, s.store, Commit(saved)) then s
      else
        var t := s.(store := Step(o, s.store, Commit(saved), now));
        if s.pend.Some? then t
        else t.(next := s.next + 1, pend := Some(Pend(s.next + 1, session, snapshot)))
    case ConfirmBlock => if s.pend.None? then s else Resolve(s)
    case CloseBlock => if s.pend.None? then s else Resolve(s)
    case EndBlock(session) => if s.pend.None? || s.pend.value.session != session then s else TakeClaim(s)
    case FireBlock(seq_) => if s.pend.None? || s.pend.value.seq_ != seq_ then s else TakeClaim(s)
    case RunClaim(k, saved, now) =>
      if k >= |s.queue| then s
      else
        s.(store := Step(o, s.store, Restore(s.queue[k].target, saved), now),
           queue := s.queue[..k] + s.queue[k + 1..],
           executed := s.executed + multiset{s.queue[k].seq_})
  }

  const START := Locks(EMPTY, 0, None, [], multiset{}, multiset{}, multiset{})

  function Play(o: Options, s: Locks, moves: seq<Move>): Locks {
    if moves == [] then s else Act(o, Play(o, s, moves[..|moves| - 1]), moves[|moves| - 1])
  }

  function Queued(queue: seq<Claim>, k: nat): nat {
    if queue == [] then 0 else (if queue[0].seq_ == k then 1 else 0) + Queued(queue[1..], k)
  }

  lemma {:induction false} QueuedConcat(a: seq<Claim>, b: seq<Claim>, k: nat)
    ensures Queued(a + b, k) == Queued(a, k) + Queued(b, k)
  {
    if a == [] {
      assert a + b == b;
    } else {
      QueuedConcat(a[1..], b, k);
      assert (a + b)[1..] == a[1..] + b;
    }
  }

  /** Every armed commit is pending or resolved, and exactly once. */
  ghost predicate ResolvedOnce(s: Locks) {
    forall k: nat :: s.resolved[k] + (if s.pend.Some? && s.pend.value.seq_ == k then 1 else 0)
                     == if 1 <= k <= s.next then 1 else 0
  }

  /** Every claim is of a resolved commit, and is waiting to run or has run, exactly once. */
  ghost predicate ClaimedOnce(s: Locks) {
    forall k: nat :: s.executed[k] + Queued(s.queue, k) == s.claimed[k] <= s.resolved[k]
  }

  ghost predicate ExactlyOnce(s: Locks) {
    ResolvedOnce(s) && ClaimedOnce(s)
  }

  lemma ActKeepsExactlyOnce(o: Options, s: Locks, move: Move)
    requires ExactlyOnce(s)
    ensures ExactlyOnce(Act(o, s, move))
  {
    hide Step, Effective, ExactlyOnce;
    var t := Act(o, s, move);
    match move
    case StoreOp(_, _) => SameRecords(s, t);
    case ApplyBlock(_, _, _, _) => if t.next == s.next { SameRecords(s, t); } else { ArmKeepsExactlyOnce(s, t); }
    case RunClaim(_, _, _) => RunKeepsExactlyOnce(o, s, move);
    case ConfirmBlock => if s.pend.Some? { ResolveKeepsExactlyOnce(s); }
    case CloseBlock => if s.pend.Some? { ResolveKeepsExactlyOnce(s); }
    case _ => if s.pend.Some? { ClaimKeepsExactlyOnce(s); }
  }

  lemma SameRecords(s: Locks, t: Locks)
    requires ExactlyOnce(s) && t == s.(store := t.store)
    ensures ExactlyOnce(t)
  {
  }

  lemma ArmKeepsExactlyOnce(s: Locks, t: Locks)
    requires ExactlyOnce(s) && s.pend.None? && t.pend.Some? && t.pend.value.seq_ == s.next + 1
    requires t == s.(store := t.store, pend := t.pend, next := s.next + 1)
    ensures ExactlyOnce(t)
  {
  }

  lemma ResolveKeepsExactlyOnce(s: Locks)
    requires ExactlyOnce(s) && s.pend.Some?
    ensures ExactlyOnce(Resolve(s))
  {
  }

  lemma RunKeepsExactlyOnce(o: Options, s: Locks, move: Move)
    requires move.RunClaim? && ExactlyOnce(s)
    ensures ExactlyOnce(Act(o, s, move))
  {
    RunKeepsClaimedOnce(o, s, move);
  }

  lemma ClaimKeepsExactlyOnce(s: Locks)
    requires ExactlyOnce(s) && s.pend.Some?
    ensures ExactlyOnce(TakeClaim(s))
  {
    var t := TakeClaim(s);
    var claim := Claim(s.pend.value.seq_, s.pend.value.target);
    forall k: nat ensures t.executed[k] + Queued(t.queue, k) == t.claimed[k] <= t.resolved[k] {
      QueuedConcat(s.queue, [claim], k);
    }
  }

  lemma RunKeepsClaimedOnce(o: Options, s: Locks, move: Move)
    requires move.RunClaim? && ClaimedOnce(s)
    ensures ClaimedOnce(Act(o, s, move))
  {
    var t, q, i := Act(o, s, move), s.queue, move.k;
    if i < |q| {
      forall k: nat ensures t.executed[k] + Queued(t.queue, k) == t.claimed[k] <= t.resolved[k] {
        assert q == q[..i] + ([q[i]] + q[i + 1..]);
        QueuedConcat(q[..i], [q[i]] + q[i + 1..], k);
        QueuedConcat(q[..i], q[i + 1..], k);
        assert ([q[i]] + q[i + 1..])[1..] == q[i + 1..];
      }
    }
  }

  /** Under every interleaving. */
  lemma {:induction false} AlwaysExactlyOnce(o: Options, moves: seq<Move>)
    ensures ExactlyOnce(Play(o, START, moves))
  {
    if moves != [] {
      AlwaysExactlyOnce(o, moves[..|moves| - 1]);
      ActKeepsExactlyOnce(o, Play(o, START, moves[..|moves| - 1]), moves[|moves| - 1]);
    }
  }

  lemma {:induction false} ResolvedStays(o: Options, s: Locks, moves: seq<Move>, k: nat)
    requires s.resolved[k] > 0
    ensures Play(o, s, moves).resolved[k] > 0
  {
    if moves != [] { ResolvedStays(o, s, moves[..|moves| - 1], k); }
  }

  lemma {:induction false} PlayConcat(o: Options, s: Locks, a: seq<Move>, b: seq<Move>)
    ensures Play(o, s, a + b) == Play(o, Play(o, s, a), b)
  {
    if b == [] {
      assert a + b == a;
    } else {
      PlayConcat(o, s, a, b[..|b| - 1]);
      assert (a + b)[..|a + b| - 1] == a + b[..|b| - 1];
    }
  }

  /** Once a commit is confirmed, claimed or closed, its timer callback never again does
      anything, no matter how late or how often it is delivered. */
  lemma StaleCallbackIsIgnored(o: Options, moves: seq<Move>, later: seq<Move>, k: nat)
    requires Play(o, START, moves).resolved[k] > 0
    ensures var s := Play(o, START, moves + later); Act(o, s, FireBlock(k)) == s
  {
    PlayConcat(o, START, moves, later);
    ResolvedStays(o, Play(o, START, moves), later, k);
    AlwaysExactlyOnce(o, moves + later);
    var s := Play(o, START, moves + later);
    assert s.resolved[k] + (if s.pend.Some? && s.pend.value.seq_ == k then 1 else 0) <= 1;
  }

  // ------------------------------------------------------ the fate of a confirmed commit

  /** The critical sections that claim the rollback of a pending commit. */
  predicate Claims(p: Pend, move: Move) {
    move == EndBlock(p.session) || move == FireBlock(p.seq_)
  }

  /** The critical sections that end it, either way. */
  predicate Ends(p: Pend, move: Move) {
    Claims(p, move) || move == ConfirmBlock || move == CloseBlock
  }

  /** The first of some moves that ends the pending commit. */
  function FirstEnd(p: Pend, moves: seq<Move>): Option<Move> {
    if moves == [] then None
    else
      var k := |moves| - 1;
      var first := FirstEnd(p, moves[..k]);
      if first.Some? then first else if Ends(p, moves[k]) then Some(moves[k]) else None
  }

  predicate Reverts(p: Pend, moves: seq<Move>) {
    var first := FirstEnd(p, moves);
    first.Some? && Claims(p, first.value)
  }

  lemma {:induction false} FirstEndConcat(p: Pend, a: seq<Move>, b: seq<Move>)
    ensures FirstEnd(p, a + b) == if FirstEnd(p, a).Some? then FirstEnd(p, a) else FirstEnd(p, b)
    decreases |b|
  {
    if b == [] {
      assert a + b == a;
    } else {
      FirstEndConcat(p, a, b[..|b| - 1]);
      assert (a + b)[..|a + b| - 1] == a + b[..|b| - 1];
    }
  }

  lemma FirstEndOne(p: Pend, move: Move)
    ensures FirstEnd(p, [move]) == if Ends(p, move) then Some(move) else None
  {
    assert [move][..0] == [];
  }

  /** What has become of an armed commit, given the first move that ended it. */
  ghost predicate Fate(p: Pend, first: Option<Move>, t: Locks) {
    && p.seq_ <= t.next
    && (if first.None? then t.pend == Some(p) else t.pend.Some? ==> t.pend.value.seq_ != p.seq_)
    && t.claimed[p.seq_] == (if first.Some? && Claims(p, first.value) then 1 else 0)
    && forall c <- t.queue :: c.seq_ == p.seq_ ==> c.target == p.target
  }

  function NextEnd(p: Pend, first: Option<Move>, move: Move): Option<Move> {
    if first.Some? then first else if Ends(p, move) then Some(move) else None
  }

  lemma ActFate(o: Options, p: Pend, first: Option<Move>, s: Locks, move: Move)
    requires Fate(p, first, s)
    ensures Fate(p, NextEnd(p, first, move), Act(o, s, move))
  {
    hide Step, Effective;
    if move.RunClaim? {
      RunFate(o, p, first, s, move);
    } else if move.EndBlock? || move.FireBlock? {
      ClaimFate(o, p, first, s, move);
    }
  }

  lemma RunFate(o: Options, p: Pend, first: Option<Move>, s: Locks, move: Move)
    requires Fate(p, first, s) && move.RunClaim?
    ensures Fate(p, NextEnd(p, first, move), Act(o, s, move))
  {
    hide Step, Effective;
    var t := Act(o, s, move);
    assert forall c <- t.queue :: c in s.queue;
  }

  lemma ClaimFate(o: Options, p: Pend, first: Option<Move>, s: Locks, move: Move)
    requires Fate(p, first, s) && (move.EndBlock? || move.FireBlock?)
    ensures Fate(p, NextEnd(p, first, move), Act(o, s, move))
  {
  }

  /** Whatever happens, in whatever order, a pending commit is reverted if and only if the first
      critical section that ends it is the end of its session or its own timer callback; and its
      rollback restores its own target. */
  lemma {:induction false} FateOf(o: Options, s: Locks, moves: seq<Move>)
    requires ExactlyOnce(s) && s.pend.Some?
    ensures var p := s.pend.value; var t := Play(o, s, moves);
            && Fate(p, FirstEnd(p, moves), t)
            && (t.claimed[p.seq_] > 0 <==> Reverts(p, moves))
    decreases |moves|
  {
    var p := s.pend.value;
    if moves == [] {
      assert s.resolved[p.seq_] + 1 == if 1 <= p.seq_ <= s.next then 1 else 0;
      assert s.executed[p.seq_] + Queued(s.queue, p.seq_) == s.claimed[p.seq_] <= s.resolved[p.seq_];
      NotQueued(s.queue, p.seq_);
    } else {
      var k := |moves| - 1;
      FateOf(o, s, moves[..k]);
      ActFate(o, p, FirstEnd(p, moves[..k]), Play(o, s, moves[..k]), moves[k]);
    }
  }

  lemma {:induction false} NotQueued(queue: seq<Claim>, k: nat)
    requires Queued(queue, k) == 0
    ensures forall c <- queue :: c.seq_ != k
    decreases |queue|
  {
    if queue != [] { NotQueued(queue[1..], k); }
  }

  /** A confirming commit applies to the store before it takes the lock to confirm. The commit it
      confirms is reverted all the same exactly when the owning session's end or the timer's
      callback takes the lock in between, before anything else ends it. */
  lemma ConfirmationHoldsIff(o: Options, s: Locks, commit: Move, between: seq<Move>, later: seq<Move>)
    requires ExactlyOnce(s) && s.pend.Some? && commit.StoreOp?
    ensures var p := s.pend.value;
            var t := Play(o, s, [commit] + between + [ConfirmBlock] + later);
            t.claimed[p.seq_] > 0 <==> Reverts(p, between)
  {
    var p := s.pend.value;
    FateOf(o, s, [commit] + between + [ConfirmBlock] + later);
    FirstEndConcat(p, [commit] + between + [ConfirmBlock], later);
    FirstEndConcat(p, [commit] + between, [ConfirmBlock]);
    FirstEndConcat(p, [commit], between);
    FirstEndOne(p, commit);
    FirstEndOne(p, ConfirmBlock);
  }

  /** A follow-up restarts the timer, but decides nothing: with it or without it, the same later
      moves revert the commit. A callback that already left the timer still claims it. */
  lemma FollowUpDecidesNothing(o: Options, s: Locks, follow: Move, later: seq<Move>)
    requires ExactlyOnce(s) && s.pend.Some? && follow.ApplyBlock?
    ensures var k := s.pend.value.seq_;
            Play(o, s, [follow] + later).claimed[k] > 0 <==> Play(o, s, later).claimed[k] > 0
  {
    FateOf(o, s, [follow] + later);
    FateOf(o, s, later);
    FirstEndConcat(s.pend.value, [follow], later);
    FirstEndOne(s.pend.value, follow);
  }

  lemma PlayOne(o: Options, s: Locks, moves: seq<Move>, move: Move)
    ensures Play(o, s, moves + [move]) == Act(o, Play(o, s, moves), move)
  {
    assert (moves + [move])[..|moves|] == moves;
  }

  lemma CommitsX(o: Options, session: nat, saved: bool, now: Time)
    requires o.valid(map[]) && o.valid(map["x" := Bool(true)]) && (o.persists ==> saved)
    ensures var arm := ApplyBlock(session, map[], saved, now);
            var edit, commit := StoreOp(Set(Candidate, "x", Bool(true)), now), StoreOp(Commit(saved), now);
            var s := Play(o, START, [arm] + [arm] + [edit] + [commit]);
            && s.store.running == map["x" := Bool(true)]
            && s.pend == Some(Pend(1, session, map[])) && s.queue == []
  {
    var arm := ApplyBlock(session, map[], saved, now);
    var edit, commit := StoreOp(Set(Candidate, "x", Bool(true)), now), StoreOp(Commit(saved), now);
    assert [arm][..0] == [];
    assert Play(o, START, [arm]) == Act(o, START, arm);
    PlayOne(o, START, [arm], arm);
    PlayOne(o, START, [arm] + [arm], edit);
    PlayOne(o, START, [arm] + [arm] + [edit], commit);
    ArmsTwice(o, arm);
    EditsAndCommits(o, Act(o, Act(o, START, arm), arm), saved, now);
  }

  lemma ArmsTwice(o: Options, arm: Move)
    requires arm.ApplyBlock? && arm.snapshot == map[] && Effective(o, EMPTY, Commit(arm.saved))
    ensures var s := Act(o, Act(o, START, arm), arm);
            && s.store.candidate == map[] && s.pend == Some(Pend(1, arm.session, map[])) && s.queue == []
  {
  }

  lemma EditsAndCommits(o: Options, s: Locks, saved: bool, now: Time)
    requires s.store.candidate == map[] && o.valid(map["x" := Bool(true)]) && (o.persists ==> saved)
    ensures var edit, commit := StoreOp(Set(Candidate, "x", Bool(true)), now), StoreOp(Commit(saved), now);
            var t := Act(o, Act(o, s, edit), commit);
            t.store.running == map["x" := Bool(true)] && t.pend == s.pend && t.queue == s.queue
  {
    OverwriteNothing(map["x" := Bool(true)]);
    assert ValidPath("x");
  }

  /** Both from an empty store, for any session: a confirmed commit, a follow-up, a plain commit
      of "x" that the client is told succeeded, then the old callback before the confirmation. The
      rollback runs and "x" is gone. */
  lemma RevertedAfterConfirming(o: Options, session: nat, saved: bool, now: Time)
    requires o.valid(map[]) && o.valid(map["x" := Bool(true)]) && (o.persists ==> saved)
    ensures var arm := ApplyBlock(session, map[], saved, now);
            var edit, commit := StoreOp(Set(Candidate, "x", Bool(true)), now), StoreOp(Commit(saved), now);
            var committed := Play(o, START, [arm] + [arm] + [edit] + [commit]);
            var after := Play(o, committed, [FireBlock(1)] + [ConfirmBlock] + [RunClaim(0, saved, now)]);
            && committed.store.running == map["x" := Bool(true)]
            && after.pend.None? && after.store.running == map[]
  {
    var arm := ApplyBlock(session, map[], saved, now);
    var edit, commit := StoreOp(Set(Candidate, "x", Bool(true)), now), StoreOp(Commit(saved), now);
    CommitsX(o, session, saved, now);
    FireConfirmRun(o, Play(o, START, [arm] + [arm] + [edit] + [commit]), saved, now);
  }

  lemma FireConfirmRun(o: Options, s: Locks, saved: bool, now: Time)
    requires s.pend.Some? && s.queue == [] && (o.persists ==> saved)
    ensures var after := Play(o, s, [FireBlock(s.pend.value.seq_)] + [ConfirmBlock] + [RunClaim(0, saved, now)]);
            after.pend.None? && after.store.running == s.pend.value.target
  {
    var fire := FireBlock(s.pend.value.seq_);
    assert [fire][..0] == [];
    var claimed := Act(o, s, fire);
    assert Play(o, s, [fire]) == claimed;
    hide Play;
    PlayOne(o, s, [fire], ConfirmBlock);
    PlayOne(o, s, [fire] + [ConfirmBlock], RunClaim(0, saved, now));
    assert claimed.queue == [Claim(s.pend.value.seq_, s.pend.value.target)];
    assert Act(o, claimed, ConfirmBlock) == claimed;
    hide Act;
    ClaimRestores(o, claimed, saved, now);
  }

  lemma ClaimRestores(o: Options, s: Locks, saved: bool, now: Time)
    requires s.queue != [] && (o.persists ==> saved)
    ensures var after := Act(o, s, RunClaim(0, saved, now));
            after.pend == s.pend && after.store.running == s.queue[0].target
  {
  }

  // ------------------------------------------------------------- the rollback target

  /** The store operation a move carries out, if any. */
  function OpOf(s: Locks, move: Move): Option<Op> {
    match move
    case StoreOp(op, _) => Some(op)
    case ApplyBlock(session, _, saved, _) =>
      if s.pend.Some? && s.pend.value.session != session then None else Some(Commit(saved))
    case RunClaim(k, saved, _) => if k < |s.queue| then Some(Restore(s.queue[k].target, saved)) else None
    case _ => None
  }

  /** What the last of the moves that writes running at `p` writes there. */
  function LastPut(o: Options, s: Locks, moves: seq<Move>, p: string): Option<Option<Value>> {
    if moves == [] then None
    else
      var k := |moves| - 1;
      var before := Play(o, s, moves[..k]);
      var op := OpOf(before, moves[k]);
      if op.Some? && Puts(o, before.store, op.value, Running, p).Some? then Puts(o, before.store, op.value, Running, p)
      else LastPut(o, s, moves[..k], p)
  }

  lemma MovePuts(o: Options, s: Locks, move: Move, p: string)
    ensures var t, op := Act(o, s, move), OpOf(s, move);
            var put := if op.Some? then Puts(o, s.store, op.value, Running, p) else None;
            && ValueAt(t.store.running, p) == (if put.Some? then put.value else ValueAt(s.store.running, p))
            && t.store.runningTrack.generation >= s.store.runningTrack.generation
            && (put.Some? ==> t.store.runningTrack.generation > s.store.runningTrack.generation)
  {
    hide Step, Effective, Puts;
    match move
    case StoreOp(op, now) =>
      PutsAreHeld(o, s.store, op, now, Running, p);
      GenerationGrows(o, s.store, op, now, Running);
    case ApplyBlock(_, _, saved, now) =>
      PutsAreHeld(o, s.store, Commit(saved), now, Running, p);
      GenerationGrows(o, s.store, Commit(saved), now, Running);
      IneffectivePutsNothing(o, s.store, Commit(saved), p);
    case RunClaim(k, saved, now) =>
      if k < |s.queue| {
        PutsAreHeld(o, s.store, Restore(s.queue[k].target, saved), now, Running, p);
        GenerationGrows(o, s.store, Restore(s.queue[k].target, saved), now, Running);
      }
    case _ =>
  }

  lemma IneffectivePutsNothing(o: Options, s: State, op: Op, p: string)
    ensures !Effective(o, s, op) ==> Puts(o, s, op, Running, p).None?
  {
  }

  /** Running is what the moves last put at each path, and a put moves its generation. */
  lemma {:induction false} RunningIsLastPut(o: Options, s: Locks, moves: seq<Move>, p: string)
    ensures var t, put := Play(o, s, moves), LastPut(o, s, moves, p);
            && ValueAt(t.store.running, p) == (if put.Some? then put.value else ValueAt(s.store.running, p))
            && t.store.runningTrack.generation >= s.store.runningTrack.generation
            && (put.Some? ==> t.store.runningTrack.generation > s.store.runningTrack.generation)
    decreases |moves|
  {
    hide Act, Puts, OpOf;
    if moves != [] {
      var k := |moves| - 1;
      RunningIsLastPut(o, s, moves[..k], p);
      MovePuts(o, Play(o, s, moves[..k]), moves[k], p);
    }
  }

  /** `commitConfirmed` takes its snapshot outside the lock. At each path the rollback target is the
      running content just before the commit if and only if no block in between writes that path or
      the last one that does writes the snapshot's value back. */
  lemma {:induction false} TargetAgreesIff(
    o: Options, s: Locks, between: seq<Move>, session: nat, saved: bool, now: Time, p: string)
    requires var t := Play(o, s, between); t.pend.None? && Effective(o, t.store, Commit(saved))
    ensures var t := Play(o, s, between);
            var armed := Act(o, t, ApplyBlock(session, s.store.running, saved, now));
            var put := LastPut(o, s, between, p);
            && armed.pend.Some?
            && (AgreeAt(armed.pend.value.target, t.store.running, p) <==>
                  put.None? || put.value == ValueAt(s.store.running, p))
  {
    RunningIsLastPut(o, s, between, p);
  }

  /** Hence it is that content whenever running's generation did not move in between. */
  lemma {:induction false} UnmovedTargetIsPreCommit(
    o: Options, s: Locks, between: seq<Move>, session: nat, saved: bool, now: Time)
    requires var t := Play(o, s, between);
             && t.pend.None? && Effective(o, t.store, Commit(saved))
             && t.store.runningTrack.generation == s.store.runningTrack.generation
    ensures var t := Play(o, s, between);
            var armed := Act(o, t, ApplyBlock(session, s.store.running, saved, now));
            armed.pend.Some? && armed.pend.value.target == t.store.running
  {
    hide Play, LastPut, Effective;
    var t := Play(o, s, between);
    var armed := Act(o, t, ApplyBlock(session, s.store.running, saved, now));
    forall p ensures AgreeAt(armed.pend.value.target, t.store.running, p) {
      RunningIsLastPut(o, s, between, p);
      TargetAgreesIff(o, s, between, session, saved, now, p);
    }
    assert ChangedPaths(armed.pend.value.target, t.store.running) == {};
  }

  /** A write that falls between the snapshot and the block is lost by the rollback. */
  lemma WriteBetweenIsLost(o: Options, session: nat, saved: bool, now: Time)
    requires o.valid(map["x" := Bool(true)]) && (o.persists ==> saved)
    ensures var write := StoreOp(Set(Running, "x", Bool(true)), now);
            var armed := Play(o, START, [write] + [ApplyBlock(session, START.store.running, saved, now)]);
            var after := Play(o, armed, [FireBlock(1)] + [ConfirmBlock] + [RunClaim(0, saved, now)]);
            armed.store.running == map["x" := Bool(true)] && after.store.running == map[]
  {
    var write := StoreOp(Set(Running, "x", Bool(true)), now);
    var arm := ApplyBlock(session, START.store.running, saved, now);
    hide Play, Act, Step;
    WritesX(o, now);
    PlayOne(o, START, [write], arm);
    ArmsFirst(o, Play(o, START, [write]), arm);
    FireConfirmRun(o, Play(o, START, [write] + [arm]), saved, now);
  }

  lemma ArmsFirst(o: Options, s: Locks, arm: Move)
    requires arm.ApplyBlock? && s.pend.None? && Effective(o, s.store, Commit(arm.saved))
    ensures var t := Act(o, s, arm);
            && t.store.running == s.store.candidate && t.queue == s.queue
            && t.pend == Some(Pend(s.next + 1, arm.session, arm.snapshot))
  {
  }

  lemma WritesX(o: Options, now: Time)
    ensures var write := StoreOp(Set(Running, "x", Bool(true)), now);
            var s := Play(o, START, [write]);
            && s.store.running == s.store.candidate == map["x" := Bool(true)]
            && s.pend.None? && s.queue == [] && s.next == 0
  {
    var write := StoreOp(Set(Running, "x", Bool(true)), now);
    PlayOne(o, START, [], write);
    assert [] + [write] == [write];
    OverwriteNothing(map["x" := Bool(true)]);
  }
}
