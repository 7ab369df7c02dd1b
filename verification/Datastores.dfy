/** internal/store/memory.go as a state machine: what each operation does to the three
    datastores and their change tracking, and what every run of operations keeps. */
module Datastores {
  import opened Wrappers
  import opened Text
  import opened Leaves

  datatype Datastore = Running | Candidate | Startup | Other(name: string)

  datatype Error = UnknownDatastore | NotFound | InvalidPath | InvalidValue | Validation | SaveFailed | LoadFailed

  type Time = int

  /** Change tracking of one datastore; no time means no configuration change yet. */
  datatype Track = Track(generation: nat, configChanged: Option<Time>)

  datatype State = State(
    running: Values, candidate: Values, startup: Values,
    runningTrack: Track, candidateTrack: Track, startupTrack: Track)

  /** What the store is constructed with. `isState` marks config:"false" paths, `valid` is
      the commit validator, `persists` says a startup file is configured. */
  datatype Options = Options(isState: string -> bool, valid: Values -> bool, persists: bool)

  /** The mutating operations. `saved` is the outcome of writing the startup file and
      `loaded` what reading it yields (nothing when reading fails). */
  datatype Op =
    | Set(ds: Datastore, path: string, value: Value)
    | Delete(ds: Datastore, path: string)
    | Apply(ds: Datastore, values: Values, deletions: seq<string>)
    | Commit(saved: bool)
    | Rollback
    | Restore(snapshot: Values, saved: bool)
    | LoadStartup(loaded: Option<Values>)

  // ------------------------------------------------------------- path shape

  predicate ValidPath(path: string) {
    && path != ""
    && !IsSpace(path[0]) && !IsSpace(path[|path| - 1])
    && path[0] != '/' && path[|path| - 1] != '/'
    && forall i :: 0 <= i < |path| - 1 ==> path[i] != '/' || path[i + 1] != '/'
  }

  /** No separator at the end and no two in a row. */
  predicate Firm(s: string, sep: char) {
    (s != "" ==> s[|s| - 1] != sep) && forall i :: 0 <= i < |s| - 1 ==> s[i] != sep || s[i + 1] != sep
  }

  lemma FirmTail(s: string, sep: char)
    requires s != ""
    ensures Firm(s, sep) <==> Firm(s[1..], sep) && (s[0] == sep ==> |s| > 1 && s[1] != sep)
  {
    var t := s[1..];
    if Firm(s, sep) {
      forall i | 0 <= i < |t| - 1 ensures t[i] != sep || t[i + 1] != sep { assert t[i] == s[i + 1]; }
    }
    if Firm(t, sep) && (s[0] == sep ==> |s| > 1 && s[1] != sep) {
      forall i | 0 <= i < |s| - 1 ensures s[i] != sep || s[i + 1] != sep {
        if i > 0 { assert t[i - 1] == s[i] && t[i] == s[i + 1]; }
      }
    }
  }

  lemma {:induction false} SplitFirm(s: string, sep: char)
    ensures var parts := Split(s, sep);
            && (parts[0] == "" <==> s == "" || s[0] == sep)
            && ((forall i :: 1 <= i < |parts| ==> parts[i] != "") <==> Firm(s, sep))
    decreases |s|
  {
    if s != "" {
      hide Firm;
      var parts, rest := Split(s, sep), Split(s[1..], sep);
      SplitFirm(s[1..], sep);
      FirmTail(s, sep);
      if s[0] == sep {
        assert parts == [""] + rest;
        assert (forall i :: 1 <= i < |parts| ==> parts[i] != "") <==>
               (forall i :: 0 <= i < |rest| ==> rest[i] != "") by {
          assert forall i :: 0 <= i < |rest| ==> rest[i] == parts[i + 1];
        }
      } else {
        assert forall i :: 1 <= i < |parts| ==> parts[i] == rest[i];
        assert |parts| == |rest|;
      }
    }
  }

  /** A path is taken exactly when it is not empty, has no white space around it and no empty
      segment. */
  lemma ValidPathIff(path: string)
    ensures ValidPath(path) <==> path != "" && Trim(path) == path && forall part <- Split(path, '/') :: part != ""
  {
    SplitFirm(path, '/');
    var parts := Split(path, '/');
    if forall part <- parts :: part != "" {
      forall i | 0 <= i < |parts| ensures parts[i] != "" { assert parts[i] in parts; }
    }
    if path != "" { TrimFixed(path); }
  }

  lemma TrimFixed(s: string)
    requires s != ""
    ensures Trim(s) == s <==> !IsSpace(s[0]) && !IsSpace(s[|s| - 1])
  {
    var i, j := TrimIs(s);
    hide Trim;
  }

  predicate ValidBatch(values: Values, deletions: seq<string>) {
    && (forall p <- values :: ValidPath(p) && Supported(values[p]))
    && (forall p <- deletions :: ValidPath(p))
  }

  // ------------------------------------------------------------- transitions

  function Contents(s: State, ds: Datastore): Values
    requires !ds.Other?
  {
    match ds
    case Running => s.running
    case Candidate => s.candidate
    case Startup => s.startup
  }

  function Tracked(s: State, ds: Datastore): Track
    requires !ds.Other?
  {
    match ds
    case Running => s.runningTrack
    case Candidate => s.candidateTrack
    case Startup => s.startupTrack
  }

  function Bump(o: Options, t: Track, paths: set<string>, now: Time): Track {
    Track(t.generation + 1,
          if exists p :: p in paths && !o.isState(p) then Some(now) else t.configChanged)
  }

  function Overwrite(m: Values, sets: Values, removals: set<string>): Values {
    (m + sets) - removals
  }

  lemma OverwriteOne(m: Values, p: string, v: Value)
    ensures Overwrite(m, map[p := v], {}) == m[p := v]
  {
  }

  lemma OverwriteNothing(sets: Values)
    ensures Overwrite(map[], sets, {}) == sets
  {
  }

  /** One batch of writes to a datastore. A batch on running also lands in candidate. */
  function Write(o: Options, s: State, ds: Datastore, sets: Values, removals: set<string>, now: Time): State
    requires !ds.Other?
  {
    var paths := sets.Keys + removals;
    match ds
    case Running =>
      s.(running := Overwrite(s.running, sets, removals),
         candidate := Overwrite(s.candidate, sets, removals),
         runningTrack := Bump(o, s.runningTrack, paths, now),
         candidateTrack := Bump(o, s.candidateTrack, paths, now))
    case Candidate =>
      s.(candidate := Overwrite(s.candidate, sets, removals),
         candidateTrack := Bump(o, s.candidateTrack, paths, now))
    case Startup =>
      s.(startup := Overwrite(s.startup, sets, removals),
         startupTrack := Bump(o, s.startupTrack, paths, now))
  }

  function ConfigOnly(o: Options, values: Values): Values {
    map p | p in values && !o.isState(p) :: values[p]
  }

  function Elements(paths: seq<string>): set<string> {
    set p | p in paths
  }

  /** The operation takes effect; otherwise nothing at all changes. */
  predicate Effective(o: Options, s: State, op: Op) {
    match op
    case Set(ds, p, v) => ValidPath(p) && Supported(v) && !ds.Other?
    case Delete(ds, p) => !ds.Other? && p in Contents(s, ds)
    case Apply(ds, values, deletions) => ValidBatch(values, deletions) && !ds.Other?
    case Commit(saved) => o.valid(s.candidate) && (o.persists ==> saved)
    case Rollback => true
    case Restore(_, saved) => o.persists ==> saved
    case LoadStartup(loaded) => o.persists && loaded.Some? && o.valid(ConfigOnly(o, loaded.value))
  }

  function Step(o: Options, s: State, op: Op, now: Time): State {
    if !Effective(o, s, op) then s
    else
      match op
      case Set(ds, p, v) => Write(o, s, ds, map[p := v], {}, now)
      case Delete(ds, p) => Write(o, s, ds, map[], {p}, now)
      case Apply(ds, values, deletions) => Write(o, s, ds, values, Elements(deletions), now)
      case Commit(_) => ReplaceAll(o, s, s.candidate, now)
      case Rollback =>
        s.(candidate := s.running,
           candidateTrack := Bump(o, s.candidateTrack, ChangedPaths(s.candidate, s.running), now))
      case Restore(snapshot, _) =>
        var changed := ChangedPaths(s.running, snapshot);
        s.(running := snapshot, startup := snapshot,
           runningTrack := Bump(o, s.runningTrack, changed, now),
           startupTrack := Bump(o, s.startupTrack, changed, now))
      case LoadStartup(loaded) => ReplaceAll(o, s, ConfigOnly(o, loaded.value), now)
  }

  lemma BatchStep(o: Options, s: State, ds: Datastore, values: Values, deletions: seq<string>, now: Time)
    requires ValidBatch(values, deletions) && !ds.Other?
    ensures Effective(o, s, Op.Apply(ds, values, deletions))
    ensures Step(o, s, Op.Apply(ds, values, deletions), now) == Write(o, s, ds, values, Elements(deletions), now)
  {
  }

  /** All three datastores become `next`; the tracking follows the change of running. */
  function ReplaceAll(o: Options, s: State, next: Values, now: Time): State {
    var changed := ChangedPaths(s.running, next);
    State(next, next, next,
          Bump(o, s.runningTrack, changed, now),
          Bump(o, s.candidateTrack, changed, now),
          Bump(o, s.startupTrack, changed, now))
  }

  const EMPTY := State(map[], map[], map[], Track(0, None), Track(0, None), Track(0, None))

  /** A run: operations with the time each happened at. */
  type Trace = seq<(Op, Time)>

  function Run(o: Options, s: State, trace: Trace): State {
    if trace == [] then s
    else
      var (op, now) := trace[|trace| - 1];
      Step(o, Run(o, s, trace[..|trace| - 1]), op, now)
  }

  lemma RunOne(o: Options, s: State, entry: (Op, Time))
    ensures Run(o, s, [entry]) == Step(o, s, entry.0, entry.1)
  {
    assert [entry][..0] == [];
  }

  // -------------------------------------------------------- mirror invariant

  /** The paths an explicit write names. */
  function Named(op: Op): set<string> {
    match op
    case Set(_, p, _) => {p}
    case Delete(_, p) => {p}
    case Apply(_, values, deletions) => values.Keys + Elements(deletions)
    case _ => {}
  }

  /** Paths edited through candidate and not since rewritten through running, committed,
      rolled back or reloaded, together with what a restore changed under candidate. */
  function Pending(o: Options, s: State, trace: Trace): set<string> {
    if trace == [] then {}
    else
      var before := trace[..|trace| - 1];
      var op := trace[|trace| - 1].0;
      NextPending(o, Run(o, s, before), Pending(o, s, before), op)
  }

  function NextPending(o: Options, s: State, pending: set<string>, op: Op): set<string> {
    if !Effective(o, s, op) then pending
    else
      match op
      case Commit(_) => {}
      case Rollback => {}
      case LoadStartup(_) => {}
      case Restore(snapshot, _) => pending + ChangedPaths(s.running, snapshot)
      case _ =>
        if op.ds == Candidate then pending + Named(op)
        else if op.ds == Running then pending - Named(op)
        else pending
  }

  ghost predicate Mirrored(s: State, pending: set<string>) {
    forall p :: p !in pending ==> AgreeAt(s.running, s.candidate, p)
  }

  lemma StepKeepsMirror(o: Options, s: State, pending: set<string>, op: Op, now: Time)
    requires Mirrored(s, pending)
    ensures Mirrored(Step(o, s, op, now), NextPending(o, s, pending, op))
  {
    var t := Step(o, s, op, now);
    forall p | p !in NextPending(o, s, pending, op) ensures AgreeAt(t.running, t.candidate, p) {
      MirrorAt(o, s, pending, op, now, p);
    }
  }

  lemma MirrorAt(o: Options, s: State, pending: set<string>, op: Op, now: Time, p: string)
    requires p in pending || AgreeAt(s.running, s.candidate, p)
    ensures p in NextPending(o, s, pending, op)
            || AgreeAt(Step(o, s, op, now).running, Step(o, s, op, now).candidate, p)
  {
    hide ValidPath, ValidBatch, Write, Bump, ReplaceAll;
    if Effective(o, s, op) {
      match op
      case Set(ds, q, v) => WriteMirrors(o, s, ds, map[q := v], {}, now, p);
      case Delete(ds, q) => WriteMirrors(o, s, ds, map[], {q}, now, p);
      case Apply(ds, values, deletions) => WriteMirrors(o, s, ds, values, Elements(deletions), now, p);
      case Commit(_) => ReplaceMirrors(o, s, s.candidate, now);
      case LoadStartup(loaded) => ReplaceMirrors(o, s, ConfigOnly(o, loaded.value), now);
      case _ =>
    }
  }

  lemma WriteMirrors(o: Options, s: State, ds: Datastore, sets: Values, removals: set<string>, now: Time, p: string)
    requires !ds.Other?
    ensures var t := Write(o, s, ds, sets, removals, now);
            && (ds == Running && p in sets.Keys + removals ==> AgreeAt(t.running, t.candidate, p))
            && (ds == Startup || p !in sets.Keys + removals ==>
                  AgreeAt(t.running, s.running, p) && AgreeAt(t.candidate, s.candidate, p))
  {
    hide Bump;
  }

  lemma ReplaceMirrors(o: Options, s: State, next: Values, now: Time)
    ensures ReplaceAll(o, s, next, now).running == ReplaceAll(o, s, next, now).candidate
  {
  }

  /** In every run candidate and running agree on every path that is not pending. */
  lemma {:induction false} MirrorInvariant(o: Options, trace: Trace)
    ensures Mirrored(Run(o, EMPTY, trace), Pending(o, EMPTY, trace))
  {
    if trace != [] {
      var before := trace[..|trace| - 1];
      MirrorInvariant(o, before);
      StepKeepsMirror(o, Run(o, EMPTY, before), Pending(o, EMPTY, before),
                      trace[|trace| - 1].0, trace[|trace| - 1].1);
    }
  }

  /** Hence a commit reaches running only at pending paths. */
  lemma CommitTouchesOnlyPending(o: Options, trace: Trace, saved: bool, now: Time)
    ensures var s := Run(o, EMPTY, trace);
            ChangedPaths(s.running, Step(o, s, Commit(saved), now).running) <= Pending(o, EMPTY, trace)
  {
    MirrorInvariant(o, trace);
  }

  /** The operation may move running or candidate at `p` other than by copying one to the other. */
  predicate Rewrites(op: Op, p: string) {
    match op
    case Commit(_) => false
    case Rollback => false
    case Restore(_, _) => true
    case LoadStartup(_) => true
    case _ => (op.ds == Running || op.ds == Candidate) && p in Named(op)
  }

  /** Commits and rollbacks neither revert a running write nor resurrect a running delete:
      whatever running and candidate agree on at `p` stays until something rewrites `p`. */
  lemma {:induction false} RunningWriteSurvives(o: Options, s: State, trace: Trace, p: string)
    requires AgreeAt(s.running, s.candidate, p)
    requires forall entry <- trace :: !Rewrites(entry.0, p)
    ensures var t := Run(o, s, trace);
            AgreeAt(t.running, s.running, p) && AgreeAt(t.candidate, s.running, p)
  {
    if trace != [] {
      var k := |trace| - 1;
      assert trace[k] in trace;
      RunningWriteSurvives(o, s, trace[..k], p);
      CopiesKeep(o, Run(o, s, trace[..k]), trace[k].0, trace[k].1, p);
    }
  }

  lemma CopiesKeep(o: Options, s: State, op: Op, now: Time, p: string)
    requires AgreeAt(s.running, s.candidate, p) && !Rewrites(op, p)
    ensures AgreeAt(Step(o, s, op, now).running, s.running, p) && AgreeAt(Step(o, s, op, now).candidate, s.running, p)
  {
    if Effective(o, s, op) {
      match op
      case Set(ds, q, v) => WriteMisses(o, s, ds, map[q := v], {}, now, p);
      case Delete(ds, q) => WriteMisses(o, s, ds, map[], {q}, now, p);
      case Apply(ds, values, deletions) => WriteMisses(o, s, ds, values, Elements(deletions), now, p);
      case _ =>
    }
  }

  lemma WriteMisses(o: Options, s: State, ds: Datastore, sets: Values, removals: set<string>, now: Time, p: string)
    requires !ds.Other? && (ds != Startup ==> p !in sets.Keys + removals)
    ensures AgreeAt(Write(o, s, ds, sets, removals, now).running, s.running, p)
    ensures AgreeAt(Write(o, s, ds, sets, removals, now).candidate, s.candidate, p)
  {
  }

  /** The two cases the store promises: after a write or a delete on running, from any
      reachable state, every later commit and rollback leaves running as written. */
  lemma RunningIsAuthoritative(o: Options, before: Trace, op: Op, now: Time, after: Trace, p: string)
    requires op.Set? || op.Delete? || op.Apply?
    requires op.ds == Running && p in Named(op) && Effective(o, Run(o, EMPTY, before), op)
    requires forall entry <- after :: !Rewrites(entry.0, p)
    ensures var written := Step(o, Run(o, EMPTY, before), op, now);
            && AgreeAt(Run(o, written, after).running, written.running, p)
            && (op.Set? ==> p in written.running && written.running[p] == op.value)
            && (op.Delete? ==> p !in written.running)
  {
    var written := Step(o, Run(o, EMPTY, before), op, now);
    RunningWriteSurvives(o, written, after, p);
  }

  // -------------------------------------------------------------- what is held

  /** An explicit write to `to` lands in `ds`. */
  predicate Reaches(to: Datastore, ds: Datastore) {
    to == ds || (to == Running && ds == Candidate)
  }

  /** What an operation puts in a datastore at `p`, if it puts something there: Some(None) is a
      removal. */
  function Puts(o: Options, s: State, op: Op, ds: Datastore, p: string): Option<Option<Value>> {
    if !Effective(o, s, op) then None
    else
      match op
      case Set(to, q, v) => if Reaches(to, ds) && q == p then Some(Some(v)) else None
      case Delete(to, q) => if Reaches(to, ds) && q == p then Some(None) else None
      case Apply(to, values, deletions) =>
        if !Reaches(to, ds) then None
        else if p in deletions then Some(None)
        else if p in values then Some(Some(values[p])) else None
      case Commit(_) => Some(ValueAt(s.candidate, p))
      case Rollback => if ds == Candidate then Some(ValueAt(s.running, p)) else None
      case Restore(snapshot, _) => if ds == Candidate then None else Some(ValueAt(snapshot, p))
      case LoadStartup(loaded) => Some(if o.isState(p) then None else ValueAt(loaded.value, p))
  }

  /** Each datastore holds what was put, and otherwise what it held; and a put moves its
      generation. */
  lemma PutsAreHeld(o: Options, s: State, op: Op, now: Time, ds: Datastore, p: string)
    requires !ds.Other?
    ensures var t, put := Step(o, s, op, now), Puts(o, s, op, ds, p);
            && ValueAt(Contents(t, ds), p) == (if put.Some? then put.value else ValueAt(Contents(s, ds), p))
            && (put.Some? ==> Tracked(t, ds).generation > Tracked(s, ds).generation)
  {
    hide ValidPath, ValidBatch, Write, Bump;
    BumpMoves(o, s, now);
    if Effective(o, s, op) {
      match op
      case Set(to, q, v) => WriteHolds(o, s, to, map[q := v], {}, now, ds, p);
      case Delete(to, q) => WriteHolds(o, s, to, map[], {q}, now, ds, p);
      case Apply(to, values, deletions) => WriteHolds(o, s, to, values, Elements(deletions), now, ds, p);
      case _ =>
    }
  }

  lemma BumpMoves(o: Options, s: State, now: Time)
    ensures forall t: Track, paths :: Bump(o, t, paths, now).generation == t.generation + 1
  {
  }

  lemma WriteHolds(o: Options, s: State, to: Datastore, sets: Values, removals: set<string>, now: Time,
                   ds: Datastore, p: string)
    requires !to.Other? && !ds.Other?
    ensures var t := Write(o, s, to, sets, removals, now);
            if Reaches(to, ds) then
              && ValueAt(Contents(t, ds), p) ==
                   (if p in removals then None else if p in sets then Some(sets[p]) else ValueAt(Contents(s, ds), p))
              && Tracked(t, ds).generation == Tracked(s, ds).generation + 1
            else Contents(t, ds) == Contents(s, ds)
  {
  }

  /** What the last operation of a run that puts something at `p` puts there. */
  function LatestPut(o: Options, s: State, trace: Trace, ds: Datastore, p: string): Option<Option<Value>> {
    if trace == [] then None
    else
      var before := trace[..|trace| - 1];
      var put := Puts(o, Run(o, s, before), trace[|trace| - 1].0, ds, p);
      if put.Some? then put else LatestPut(o, s, before, ds, p)
  }

  /** After any run each datastore holds at each path what was last put there. */
  lemma {:induction false} HoldsLastPut(o: Options, s: State, trace: Trace, ds: Datastore, p: string)
    requires !ds.Other?
    ensures var put := LatestPut(o, s, trace, ds, p);
            ValueAt(Contents(Run(o, s, trace), ds), p) ==
              if put.Some? then put.value else ValueAt(Contents(s, ds), p)
  {
    if trace != [] {
      var before := trace[..|trace| - 1];
      HoldsLastPut(o, s, before, ds, p);
      PutsAreHeld(o, Run(o, s, before), trace[|trace| - 1].0, trace[|trace| - 1].1, ds, p);
    }
  }

  /** What a commit wrote to the startup file comes back after a restart: every configuration leaf
      with its value, and no state leaf. */
  lemma RestartKeepsConfig(o: Options, s: State, saved: bool, now: Time, file: Values, later: Time, p: string)
    requires o.persists && Effective(o, s, Commit(saved)) && o.valid(file)
    requires forall q :: ValueAt(file, q) == if o.isState(q) then None else ValueAt(s.candidate, q)
    ensures var restarted := Step(o, EMPTY, LoadStartup(Some(file)), later);
            && restarted.running == restarted.candidate == restarted.startup
            && ValueAt(restarted.running, p) ==
                 if o.isState(p) then None else ValueAt(Step(o, s, Commit(saved), now).running, p)
  {
    forall q ensures q in file <==> q in ConfigOnly(o, file) { assert ValueAt(file, q).Some? <==> q in file; }
    assert ConfigOnly(o, file) == file;
  }

  // ---------------------------------------------------------------- restore

  /** A restore is the one mutation of running that is not mirrored. At any path, the next commit
      leaves running as restored if and only if candidate already held that there. */
  lemma RestoreSurvivesCommitIff(o: Options, s: State, snapshot: Values, saved: bool, persisted: bool,
                                 now: Time, then_: Time, p: string)
    requires Effective(o, s, Restore(snapshot, saved))
    requires Effective(o, Step(o, s, Restore(snapshot, saved), now), Commit(persisted))
    ensures var restored := Step(o, s, Restore(snapshot, saved), now);
            AgreeAt(Step(o, restored, Commit(persisted), then_).running, snapshot, p) <==>
            AgreeAt(s.candidate, snapshot, p)
  {
  }

  predicate Copy(op: Op) { op.Commit? || op.Rollback? }

  /** The first effective operation of a run of commits and rollbacks is a commit. */
  predicate CommitsFirst(o: Options, s: State, trace: Trace)
    decreases |trace|
  {
    trace != [] &&
    var (op, now) := trace[0];
    if Effective(o, s, op) then op.Commit? else CommitsFirst(o, s, trace[1..])
  }

  lemma {:induction false} RunFromFront(o: Options, s: State, trace: Trace)
    requires trace != []
    ensures Run(o, s, trace) == Run(o, Step(o, s, trace[0].0, trace[0].1), trace[1..])
    decreases |trace|
  {
    var k := |trace| - 1;
    if k == 0 {
      assert trace[..0] == [];
    } else {
      RunFromFront(o, s, trace[..k]);
      assert trace[..k][1..] == trace[1..][..k - 1];
    }
  }

  /** Over runs of commits and rollbacks, running keeps what it holds at `p` if and only if
      candidate holds the same, or no effective commit comes before the first effective rollback. */
  lemma {:induction false} CopiesKeepIff(o: Options, s: State, trace: Trace, p: string)
    requires forall entry <- trace :: Copy(entry.0)
    ensures AgreeAt(Run(o, s, trace).running, s.running, p) <==>
            AgreeAt(s.candidate, s.running, p) || !CommitsFirst(o, s, trace)
    decreases |trace|
  {
    if trace != [] {
      var (op, now) := trace[0];
      assert trace[0] in trace && forall entry <- trace[1..] :: entry in trace;
      RunFromFront(o, s, trace);
      var t := Step(o, s, op, now);
      if Effective(o, s, op) {
        assert AgreeAt(t.running, t.candidate, p);
        forall entry <- trace[1..] ensures !Rewrites(entry.0, p) { assert Copy(entry.0); }
        RunningWriteSurvives(o, t, trace[1..], p);
      } else {
        CopiesKeepIff(o, s, trace[1..], p);
      }
    }
  }

  /** So a restored value survives such a run if and only if candidate held it before the restore, or
      no effective commit comes before the first effective rollback. */
  lemma {:induction false} RestoreSurvivesIff(
    o: Options, s: State, snapshot: Values, saved: bool, now: Time, trace: Trace, p: string)
    requires Effective(o, s, Restore(snapshot, saved)) && forall entry <- trace :: Copy(entry.0)
    ensures var restored := Step(o, s, Restore(snapshot, saved), now);
            AgreeAt(Run(o, restored, trace).running, snapshot, p) <==>
            AgreeAt(s.candidate, snapshot, p) || !CommitsFirst(o, restored, trace)
  {
    CopiesKeepIff(o, Step(o, s, Restore(snapshot, saved), now), trace, p);
  }

  /** A run from the empty store in which the restored value does not survive. */
  lemma RestoreIsNotMirrored(o: Options, saved: bool, now: Time)
    requires o.valid(map["a" := Bool(true)]) && (o.persists ==> saved)
    ensures var trace: Trace := [(Set(Running, "a", Bool(true)), now)] + [(Restore(map[], saved), now)];
            var s := Run(o, EMPTY, trace);
            s.running == map[] && "a" in Run(o, s, [(Commit(saved), now)]).running
  {
    var write, restore := (Set(Running, "a", Bool(true)), now), (Restore(map[], saved), now);
    RunOne(o, EMPTY, write);
    OverwriteNothing(map["a" := Bool(true)]);
    var trace: Trace := [write] + [restore];
    assert trace[..1] == [write];
    RunOne(o, Run(o, EMPTY, trace), (Commit(saved), now));
  }

  // -------------------------------------------------------- a missing startup file

  /** Loading a startup file that does not exist yields an empty content, and installs it: the
      datastores stay as they were if and only if persistence is off, the validator refuses an
      empty content, or all three are empty already. */
  lemma MissingFileKeepsIff(o: Options, s: State, now: Time)
    ensures var t := Step(o, s, LoadStartup(Some(map[])), now);
            (forall ds: Datastore :: !ds.Other? ==> Contents(t, ds) == Contents(s, ds)) <==>
            !o.persists || !o.valid(map[]) || s.running == s.candidate == s.startup == map[]
  {
    var t := Step(o, s, LoadStartup(Some(map[])), now);
    assert ConfigOnly(o, map[]) == map[];
    assert (forall ds: Datastore :: !ds.Other? ==> Contents(t, ds) == Contents(s, ds)) ==>
             Contents(t, Running) == Contents(s, Running) && Contents(t, Candidate) == Contents(s, Candidate)
             && Contents(t, Startup) == Contents(s, Startup);
  }

  /** A run in which it empties a running that was not. */
  lemma MissingFileEmptiesRunning(o: Options, now: Time)
    requires o.persists && o.valid(map[])
    ensures var trace: Trace := [(Set(Running, "a", Bool(true)), now)];
            var s := Run(o, EMPTY, trace);
            "a" in s.running && Step(o, s, LoadStartup(Some(map[])), now).running == map[]
  {
    var trace: Trace := [(Set(Running, "a", Bool(true)), now)];
    RunOne(o, EMPTY, trace[0]);
    assert ConfigOnly(o, map[]) == map[];
  }

  // --------------------------------------------------------- change tracking

  /** What an operation writes in `ds`: the named paths, or for a wholesale replacement the
      paths on which running (for a rollback: candidate) changes. */
  function Written(o: Options, s: State, op: Op, ds: Datastore): set<string> {
    if !Effective(o, s, op) then {}
    else
      match op
      case Commit(_) => ChangedPaths(s.running, s.candidate)
      case Rollback => if ds == Candidate then ChangedPaths(s.candidate, s.running) else {}
      case Restore(snapshot, _) => if ds == Candidate then {} else ChangedPaths(s.running, snapshot)
      case LoadStartup(loaded) => ChangedPaths(s.running, ConfigOnly(o, loaded.value))
      case _ => if op.ds == ds || (op.ds == Running && ds == Candidate) then Named(op) else {}
  }

  /** The stamp of running moves exactly when a configuration leaf is written, so a step
      that changes running's configuration stamps it and state-only steps never do. */
  lemma RunningStamp(o: Options, s: State, op: Op, now: Time)
    ensures var t := Step(o, s, op, now);
            && t.runningTrack.configChanged ==
                 (if exists p :: p in Written(o, s, op, Running) && !o.isState(p) then Some(now)
                  else s.runningTrack.configChanged)
            && (ConfigOnly(o, t.running) != ConfigOnly(o, s.running) ==> t.runningTrack.configChanged == Some(now))
  {
    StampFollowsWrites(o, s, op, now, Running);
    if !exists p :: p in Written(o, s, op, Running) && !o.isState(p) {
      ConfigFrame(o, s, op, now);
    }
  }

  /** The stamp of each datastore is set exactly by the operations that write a configuration leaf
      in it. */
  lemma StampFollowsWrites(o: Options, s: State, op: Op, now: Time, ds: Datastore)
    requires !ds.Other?
    ensures Tracked(Step(o, s, op, now), ds).configChanged ==
              if exists p :: p in Written(o, s, op, ds) && !o.isState(p) then Some(now)
              else Tracked(s, ds).configChanged
  {
    hide ValidPath;
  }

  lemma ConfigFrame(o: Options, s: State, op: Op, now: Time)
    requires forall p :: p in Written(o, s, op, Running) ==> o.isState(p)
    ensures ConfigOnly(o, Step(o, s, op, now).running) == ConfigOnly(o, s.running)
  {
    var after := Step(o, s, op, now).running;
    forall p | !o.isState(p) ensures AgreeAt(after, s.running, p) {
      RunningFrame(o, s, op, now, p);
    }
    SameConfig(o, after, s.running);
  }

  lemma SameConfig(o: Options, a: Values, b: Values)
    requires forall p :: !o.isState(p) ==> AgreeAt(a, b, p)
    ensures ConfigOnly(o, a) == ConfigOnly(o, b)
  {
  }

  lemma RunningFrame(o: Options, s: State, op: Op, now: Time, p: string)
    requires p !in Written(o, s, op, Running)
    ensures AgreeAt(Step(o, s, op, now).running, s.running, p)
  {
  }

  /** The datastores an operation addresses; candidate follows explicit writes on running. */
  predicate Addresses(op: Op, ds: Datastore) {
    match op
    case Commit(_) => true
    case LoadStartup(_) => true
    case Rollback => ds == Candidate
    case Restore(_, _) => ds != Candidate
    case _ => op.ds == ds || (op.ds == Running && ds == Candidate)
  }

  /** The generation of a datastore grows by one with every effective operation that addresses it,
      even one that changes nothing, and otherwise stands still; so it grows whenever the content
      changes, state leaves included. */
  lemma GenerationGrows(o: Options, s: State, op: Op, now: Time, ds: Datastore)
    requires !ds.Other?
    ensures var t := Step(o, s, op, now);
            && Tracked(t, ds).generation ==
                 Tracked(s, ds).generation + (if Effective(o, s, op) && Addresses(op, ds) then 1 else 0)
            && (Contents(t, ds) != Contents(s, ds) ==> Effective(o, s, op) && Addresses(op, ds))
  {
  }

  /** Over a whole run: equal generations mean nothing in between changed the content. */
  lemma {:induction false} SameGenerationSameContents(o: Options, s: State, trace: Trace, ds: Datastore)
    requires !ds.Other?
    ensures var t := Run(o, s, trace);
            && Tracked(t, ds).generation >= Tracked(s, ds).generation
            && (Tracked(t, ds).generation == Tracked(s, ds).generation ==> Contents(t, ds) == Contents(s, ds))
  {
    if trace != [] {
      var before := trace[..|trace| - 1];
      SameGenerationSameContents(o, s, before, ds);
      GenerationGrows(o, Run(o, s, before), trace[|trace| - 1].0, trace[|trace| - 1].1, ds);
    }
  }

  /** Over a whole run: the stamp of running is the time of its last configuration write,
      so running's configuration cannot have changed since the stamp. */
  lemma {:induction false} ConfigUnchangedSinceStamp(o: Options, s: State, trace: Trace)
    requires forall entry <- trace :: Some(entry.1) != Run(o, s, trace).runningTrack.configChanged
    ensures ConfigOnly(o, Run(o, s, trace).running) == ConfigOnly(o, s.running)
  {
    if trace != [] {
      var before := trace[..|trace| - 1];
      var (op, now) := trace[|trace| - 1];
      assert (op, now) in trace;
      RunningStamp(o, Run(o, s, before), op, now);
      ConfigUnchangedSinceStamp(o, s, before);
    }
  }
}
