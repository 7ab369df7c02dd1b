/** The memoized SNMP index of internal/router/router.go under concurrency. `Bindings`
    reads the generation, looks at the cache, reads the values and fills the cache as
    separate critical sections, so any number of calls and store writes interleave. */
module BindingCache {
  import opened Wrappers
  import opened Leaves
  import opened Datastores

  /** Generations are uint64 in the source. */
  const GENERATIONS: nat := 0x1_0000_0000_0000_0000

  /** The cache entry as stored (`ds`, `stamp`, `bindings`), plus where in the history of the
      store its stamp and its values were read. */
  datatype Entry<B> = Entry(ds: Datastore, stamp: nat, bindings: B, stampedAt: nat, readAt: nat)

  /** One `Bindings` call, with the point of the history at which it read the generation. */
  datatype Call<B> =
    | Looking(ds: Datastore, stamp: nat, start: nat)
    | Missed(ds: Datastore, stamp: nat, start: nat)
    | Holding(ds: Datastore, stamp: nat, start: nat, values: Values, readAt: nat)
    | Returned(ds: Datastore, start: nat, end: nat, result: Option<B>)

  /** `history` holds every store state so far; the last one is current. */
  datatype System<B> = System(history: seq<State>, cache: Option<Entry<B>>, calls: map<nat, Call<B>>)

  datatype Move =
    | StoreOp(op: Op, now: Time)
    | ReadGeneration(caller: nat, ds: Datastore)
    | LookUp(caller: nat)
    | ReadValues(caller: nat)
    | FillCache(caller: nat)

  function Current<B>(sys: System<B>): State
    requires sys.history != []
  {
    sys.history[|sys.history| - 1]
  }

  function Stamp(s: State, ds: Datastore): nat
    requires !ds.Other?
  {
    Tracked(s, ds).generation % GENERATIONS
  }

  /** One critical section of one participant. `index` rebuilds the object index from a flat
      content and fails when the content does not fit the model. */
  function Advance<B>(o: Options, index: Values -> Option<B>, sys: System<B>, move: Move): (r: System<B>)
    requires sys.history != []
    ensures r.history != []
  {
    var last := |sys.history| - 1;
    match move
    case StoreOp(op, now) =>
      sys.(history := sys.history + [Step(o, Current(sys), op, now)])
    case ReadGeneration(c, ds) =>
      if ds.Other? then sys
      else sys.(calls := sys.calls[c := Looking(ds, Stamp(Current(sys), ds), last)])
    case LookUp(c) =>
      if c in sys.calls && sys.calls[c].Looking? then
        var call := sys.calls[c];
        if sys.cache.Some? && sys.cache.value.ds == call.ds && sys.cache.value.stamp == call.stamp then
          sys.(calls := sys.calls[c := Returned(call.ds, call.start, last, Some(sys.cache.value.bindings))])
        else
          sys.(calls := sys.calls[c := Missed(call.ds, call.stamp, call.start)])
      else sys
    case ReadValues(c) =>
      if c in sys.calls && sys.calls[c].Missed? && !sys.calls[c].ds.Other? then
        var call := sys.calls[c];
        sys.(calls := sys.calls[c := Holding(call.ds, call.stamp, call.start, Contents(Current(sys), call.ds), last)])
      else sys
    case FillCache(c) =>
      if c in sys.calls && sys.calls[c].Holding? then
        var call := sys.calls[c];
        var bindings := index(call.values);
        var done := sys.(calls := sys.calls[c := Returned(call.ds, call.start, last, bindings)]);
        if bindings.None? then done
        else done.(cache := Some(Entry(call.ds, call.stamp, bindings.value, call.start, call.readAt)))
      else sys
  }

  function Play<B>(o: Options, index: Values -> Option<B>, moves: seq<Move>): (r: System<B>)
    ensures r.history != []
  {
    if moves == [] then System([EMPTY], None, map[])
    else Advance(o, index, Play(o, index, moves[..|moves| - 1]), moves[|moves| - 1])
  }

  // -------------------------------------------------------------- invariant

  ghost predicate Ordered(history: seq<State>) {
    && (forall i, ds: Datastore :: 0 <= i < |history| && !ds.Other? ==> Tracked(history[i], ds).generation <= i)
    && forall i, j, ds: Datastore :: 0 <= i <= j < |history| && !ds.Other? ==>
         && Tracked(history[i], ds).generation <= Tracked(history[j], ds).generation
         && (Tracked(history[i], ds).generation == Tracked(history[j], ds).generation ==>
               Contents(history[i], ds) == Contents(history[j], ds))
  }

  ghost predicate EntryOk<B(!new)>(index: Values -> Option<B>, history: seq<State>, e: Entry<B>) {
    && !e.ds.Other? && e.stampedAt <= e.readAt < |history|
    && e.stamp == Stamp(history[e.stampedAt], e.ds)
    && index(Contents(history[e.readAt], e.ds)) == Some(e.bindings)
  }

  /** `result` is the index of a content that `ds` really held between `start` and `end`. */
  ghost predicate Witnessed<B(!new)>(
    index: Values -> Option<B>, history: seq<State>, ds: Datastore, start: nat, end: nat, result: Option<B>)
  {
    !ds.Other? &&
    exists i :: start <= i <= end && i < |history| && index(Contents(history[i], ds)) == result
  }

  ghost predicate CallOk<B(!new)>(index: Values -> Option<B>, history: seq<State>, call: Call<B>) {
    match call
    case Looking(ds, stamp, start) => !ds.Other? && start < |history| && stamp == Stamp(history[start], ds)
    case Missed(ds, stamp, start) => !ds.Other? && start < |history| && stamp == Stamp(history[start], ds)
    case Holding(ds, stamp, start, values, readAt) =>
      && !ds.Other? && start <= readAt < |history| && stamp == Stamp(history[start], ds)
      && values == Contents(history[readAt], ds)
    case Returned(ds, start, end, result) =>
      end < |history| && Witnessed(index, history, ds, start, end, result)
  }

  ghost predicate Inv<B(!new)>(index: Values -> Option<B>, sys: System<B>) {
    sys.history != [] && Ordered(sys.history) && Consistent(index, sys)
  }

  ghost predicate Consistent<B(!new)>(index: Values -> Option<B>, sys: System<B>) {
    && (sys.cache.Some? ==> EntryOk(index, sys.history, sys.cache.value))
    && forall c <- sys.calls :: CallOk(index, sys.history, sys.calls[c])
  }

  lemma StoreOpKeepsInv<B(!new)>(o: Options, index: Values -> Option<B>, sys: System<B>, op: Op, now: Time)
    requires Inv(index, sys)
    ensures Inv(index, Advance(o, index, sys, StoreOp(op, now)))
  {
    var next := Step(o, Current(sys), op, now);
    var history := sys.history + [next];
    forall ds: Datastore | !ds.Other?
      ensures && Tracked(Current(sys), ds).generation <= Tracked(next, ds).generation
              && Tracked(next, ds).generation <= Tracked(Current(sys), ds).generation + 1
              && (Tracked(Current(sys), ds).generation == Tracked(next, ds).generation ==>
                    Contents(Current(sys), ds) == Contents(next, ds))
    {
      GenerationGrows(o, Current(sys), op, now, ds);
    }
    assert Ordered(history);
    forall c | c in sys.calls ensures CallOk(index, history, sys.calls[c]) {
      CallOkExtends(index, sys.history, next, sys.calls[c]);
    }
  }

  lemma CallOkExtends<B(!new)>(index: Values -> Option<B>, history: seq<State>, next: State, call: Call<B>)
    requires CallOk(index, history, call)
    ensures CallOk(index, history + [next], call)
  {
    if call.Returned? {
      var i :| call.start <= i <= call.end && i < |history| && index(Contents(history[i], call.ds)) == call.result;
      assert (history + [next])[i] == history[i];
    }
  }

  /** A stamp match is a proof of freshness: a late-filled entry can only be newer than its
      stamp, so its values were current at some point of the looking call. */
  lemma HitIsWitnessed<B(!new)>(index: Values -> Option<B>, history: seq<State>, call: Call<B>, e: Entry<B>)
    requires history != [] && |history| <= GENERATIONS && Ordered(history)
    requires EntryOk(index, history, e) && call.Looking? && CallOk(index, history, call)
    requires e.ds == call.ds && e.stamp == call.stamp
    ensures Witnessed(index, history, call.ds, call.start, |history| - 1, Some(e.bindings))
  {
    assert Tracked(history[call.start], e.ds).generation == Tracked(history[e.stampedAt], e.ds).generation;
    if e.readAt < call.start {
      assert Contents(history[e.readAt], e.ds) == Contents(history[call.start], e.ds);
    }
  }

  lemma LookUpConsistent<B(!new)>(o: Options, index: Values -> Option<B>, sys: System<B>, c: nat)
    requires Inv(index, sys) && |sys.history| <= GENERATIONS
    ensures Consistent(index, Advance(o, index, sys, LookUp(c)))
  {
    var next := Advance(o, index, sys, LookUp(c));
    if next != sys && next.calls[c].Returned? {
      HitIsWitnessed(index, sys.history, sys.calls[c], sys.cache.value);
    }
    forall d | d in next.calls ensures CallOk(index, sys.history, next.calls[d]) {
      assert d != c ==> next.calls[d] == sys.calls[d];
    }
  }

  lemma CallMoveConsistent<B(!new)>(o: Options, index: Values -> Option<B>, sys: System<B>, move: Move)
    requires sys.history != [] && Consistent(index, sys)
    requires move.ReadGeneration? || move.ReadValues? || move.FillCache?
    ensures Consistent(index, Advance(o, index, sys, move))
  {
    hide Step;
    var next := Advance(o, index, sys, move);
    forall d | d in next.calls ensures CallOk(index, sys.history, next.calls[d]) {
      assert d != move.caller ==> next.calls[d] == sys.calls[d];
    }
  }

  lemma MoveKeepsInv<B(!new)>(o: Options, index: Values -> Option<B>, sys: System<B>, move: Move)
    requires Inv(index, sys) && |sys.history| <= GENERATIONS
    ensures Inv(index, Advance(o, index, sys, move))
  {
    hide Ordered, Consistent, Step, Contents, Stamp;
    match move
    case StoreOp(op, now) => StoreOpKeepsInv(o, index, sys, op, now);
    case LookUp(c) => LookUpConsistent(o, index, sys, c);
    case _ => CallMoveConsistent(o, index, sys, move);
  }

  // ---------------------------------------------------------------- one call alone

  /** The four critical sections of a call with nothing in between. */
  function Bind<B>(o: Options, index: Values -> Option<B>, sys: System<B>, c: nat, ds: Datastore): (r: System<B>)
    requires sys.history != []
    ensures r.history != []
  {
    var looking := Advance(o, index, sys, ReadGeneration(c, ds));
    var missed := Advance(o, index, looking, LookUp(c));
    Advance(o, index, Advance(o, index, missed, ReadValues(c)), FillCache(c))
  }

  /** A call that nothing disturbs returns the index of the present content, from any reachable
      state of the cache, and leaves that index cached. */
  lemma UndisturbedCall<B(!new)>(o: Options, index: Values -> Option<B>, sys: System<B>, c: nat, ds: Datastore)
    requires Inv(index, sys) && |sys.history| <= GENERATIONS && !ds.Other?
    ensures var done, last, result := Bind(o, index, sys, c, ds), |sys.history| - 1, index(Contents(Current(sys), ds));
            && done.history == sys.history
            && c in done.calls && done.calls[c] == Returned(ds, last, last, result)
            && (result.Some? ==>
                  && done.cache.Some? && done.cache.value.ds == ds && done.cache.value.stamp == Stamp(Current(sys), ds)
                  && done.cache.value.bindings == result.value)
  {
    hide Step, Stamp, Contents, Ordered, Consistent;
    if sys.cache.Some? && sys.cache.value.ds == ds && sys.cache.value.stamp == Stamp(Current(sys), ds) {
      HitIsCurrent(o, index, sys, c, ds);
    }
  }

  lemma HitIsCurrent<B(!new)>(o: Options, index: Values -> Option<B>, sys: System<B>, c: nat, ds: Datastore)
    requires Inv(index, sys) && |sys.history| <= GENERATIONS && !ds.Other?
    requires sys.cache.Some? && sys.cache.value.ds == ds && sys.cache.value.stamp == Stamp(Current(sys), ds)
    ensures index(Contents(Current(sys), ds)) == Some(sys.cache.value.bindings)
  {
    hide Step, Stamp, Contents, Ordered, EntryOk;
    StartsOk(o, index, sys, c, ds);
    HitIsWitnessed(index, sys.history, Advance(o, index, sys, ReadGeneration(c, ds)).calls[c], sys.cache.value);
  }

  lemma StartsOk<B(!new)>(o: Options, index: Values -> Option<B>, sys: System<B>, c: nat, ds: Datastore)
    requires Inv(index, sys) && !ds.Other?
    ensures var looking := Advance(o, index, sys, ReadGeneration(c, ds));
            c in looking.calls && looking.calls[c].Looking? && CallOk(index, sys.history, looking.calls[c])
  {
  }

  /** So the next call, if nothing was written, finds it: it returns without reading the store. */
  lemma RepeatedCallHits<B(!new)>(
    o: Options, index: Values -> Option<B>, sys: System<B>, c: nat, d: nat, ds: Datastore)
    requires Inv(index, sys) && |sys.history| <= GENERATIONS && !ds.Other?
    requires index(Contents(Current(sys), ds)).Some?
    ensures var done, last := Bind(o, index, sys, c, ds), |sys.history| - 1;
            var again := Advance(o, index, Advance(o, index, done, ReadGeneration(d, ds)), LookUp(d));
            d in again.calls && again.calls[d] == Returned(ds, last, last, index(Contents(Current(sys), ds)))
  {
    hide Step, Stamp, Contents, Bind;
    UndisturbedCall(o, index, sys, c, ds);
  }

  function Writes(moves: seq<Move>): nat {
    if moves == [] then 0
    else Writes(moves[..|moves| - 1]) + if moves[|moves| - 1].StoreOp? then 1 else 0
  }

  lemma {:induction false} HistoryLength<B(!new)>(o: Options, index: Values -> Option<B>, moves: seq<Move>)
    ensures |Play(o, index, moves).history| == Writes(moves) + 1
  {
    if moves != [] { HistoryLength(o, index, moves[..|moves| - 1]); }
  }

  lemma InitialInv<B(!new)>(index: Values -> Option<B>)
    ensures Inv(index, System([EMPTY], None, map[]))
  {
  }

  lemma {:induction false} EveryRunKeepsInv<B(!new)>(o: Options, index: Values -> Option<B>, moves: seq<Move>)
    requires Writes(moves) < GENERATIONS
    ensures Inv(index, Play(o, index, moves))
  {
    if moves == [] {
      InitialInv(index);
    } else {
      var before := moves[..|moves| - 1];
      EveryRunKeepsInv(o, index, before);
      HistoryLength(o, index, before);
      MoveKeepsInv(o, index, Play(o, index, before), moves[|moves| - 1]);
    }
  }

  /** Linearizability: whatever the interleaving, a finished call returned the index (or the
      rebuild failure) of a content the datastore held while the call was running. */
  lemma Linearizable<B(!new)>(o: Options, index: Values -> Option<B>, moves: seq<Move>, c: nat)
    requires Writes(moves) < GENERATIONS
    requires c in Play(o, index, moves).calls && Play(o, index, moves).calls[c].Returned?
    ensures var sys := Play(o, index, moves);
            var call := sys.calls[c];
            exists i :: call.start <= i <= call.end < |sys.history| && !call.ds.Other?
                        && index(Contents(sys.history[i], call.ds)) == call.result
  {
    EveryRunKeepsInv(o, index, moves);
    var sys := Play(o, index, moves);
    assert CallOk(index, sys.history, sys.calls[c]);
  }

  // ------------------------------------------------------ why the bound is there

  const WRITE: Move := StoreOp(Set(Running, "a", Bool(true)), 0)

  /** One call fills the cache, then the same leaf is written `n` times. */
  function FillThenWrite(n: nat): seq<Move> {
    if n == 0 then [ReadGeneration(0, Running), LookUp(0), ReadValues(0), FillCache(0)]
    else FillThenWrite(n - 1) + [WRITE]
  }

  lemma FilledFirst(o: Options, index: Values -> Option<Values>)
    requires index(map[]) == Some(map[])
    ensures var sys := Play(o, index, FillThenWrite(0));
            && sys.history == [EMPTY]
            && sys.cache == Some(Entry(Running, 0, map[], 0, 0))
  {
    var moves := FillThenWrite(0);
    var s0: System<Values> := System([EMPTY], None, map[]);
    assert moves[..4] == moves && moves[..3][..2] == moves[..2] && moves[..2][..1] == moves[..1]
           && moves[..1][..0] == [];
    assert Play(o, index, moves[..0]) == s0;
    var s1 := Advance(o, index, s0, moves[0]);
    assert Play(o, index, moves[..1]) == s1;
    var s2 := Advance(o, index, s1, moves[1]);
    assert Play(o, index, moves[..2]) == s2;
    var s3 := Advance(o, index, s2, moves[2]);
    assert Play(o, index, moves[..3]) == s3;
  }

  lemma PlayOneMore<B(!new)>(o: Options, index: Values -> Option<B>, moves: seq<Move>, move: Move)
    ensures Play(o, index, moves + [move]) == Advance(o, index, Play(o, index, moves), move)
  {
    assert (moves + [move])[..|moves|] == moves;
  }

  lemma OneWrite(o: Options, index: Values -> Option<Values>, sys: System<Values>)
    requires sys.history != []
    ensures var next := Advance(o, index, sys, WRITE);
            && |next.history| == |sys.history| + 1
            && Current(next).runningTrack.generation == Current(sys).runningTrack.generation + 1
            && "a" in Current(next).running
            && next.cache == sys.cache
  {
    assert ValidPath("a");
    assert Effective(o, Current(sys), WRITE.op);
  }

  lemma {:induction false} AfterWrites(o: Options, index: Values -> Option<Values>, n: nat)
    requires index(map[]) == Some(map[])
    ensures var sys := Play(o, index, FillThenWrite(n));
            && |sys.history| == n + 1
            && Current(sys).runningTrack.generation == n
            && (n > 0 ==> "a" in Current(sys).running)
            && sys.cache == Some(Entry(Running, 0, map[], 0, 0))
  {
    if n == 0 {
      FilledFirst(o, index);
    } else {
      AfterWrites(o, index, n - 1);
      OneWrite(o, index, Play(o, index, FillThenWrite(n - 1)));
      PlayOneMore(o, index, FillThenWrite(n - 1), WRITE);
    }
  }

  /** A call that finds the stamp of an old entry again is served that entry. */
  lemma ServedStale(o: Options, index: Values -> Option<Values>, sys: System<Values>)
    requires forall v :: index(v) == Some(v)
    requires sys.history != [] && "a" in Current(sys).running && Current(sys).runningTrack.generation == GENERATIONS
    requires sys.cache == Some(Entry(Running, 0, map[], 0, 0))
    ensures var served := Advance(o, index, Advance(o, index, sys, ReadGeneration(1, Running)), LookUp(1));
            && 1 in served.calls && served.calls[1].Returned?
            && !Witnessed(index, served.history, Running, served.calls[1].start, served.calls[1].end,
                          served.calls[1].result)
  {
    hide Step;
    assert Stamp(Current(sys), Running) == 0;
  }

  /** After 2^64 writes the stamp repeats, and a later call is served the first, long
      overwritten index: the bound in Linearizable is the best possible. */
  lemma StampReuseIsStale(o: Options, index: Values -> Option<Values>)
    requires forall v :: index(v) == Some(v)
    ensures var sys := Play(o, index, FillThenWrite(GENERATIONS) + [ReadGeneration(1, Running)] + [LookUp(1)]);
            && 1 in sys.calls && sys.calls[1].Returned?
            && !Witnessed(index, sys.history, Running, sys.calls[1].start, sys.calls[1].end, sys.calls[1].result)
  {
    hide Play, FillThenWrite, Step;
    var before := FillThenWrite(GENERATIONS);
    AfterWrites(o, index, GENERATIONS);
    PlayOneMore(o, index, before, ReadGeneration(1, Running));
    PlayOneMore(o, index, before + [ReadGeneration(1, Running)], LookUp(1));
    ServedStale(o, index, Play(o, index, before));
  }
}
