/** The `Memory` store of internal/store/memory.go: mutable datastores whose methods are
    proved to follow the transitions of module Datastores. */
module Memory {
  import opened Wrappers
  import opened Leaves
  import opened Datastores
  import Diff

  class Memory {
    const options: Options
    var running: Values
    var candidate: Values
    var startup: Values
    var generation: map<Datastore, nat>
    var configChanged: map<Datastore, Time>

    constructor (options: Options)
      ensures this.options == options && View() == EMPTY
    {
      this.options := options;
      running, candidate, startup := map[], map[], map[];
      generation, configChanged := map[], map[];
    }

    function TrackOf(ds: Datastore): Track
      reads `generation, `configChanged
    {
      Track(if ds in generation then generation[ds] else 0,
            if ds in configChanged then Some(configChanged[ds]) else None)
    }

    function View(): State
      reads this
    {
      State(running, candidate, startup, TrackOf(Running), TrackOf(Candidate), TrackOf(Startup))
    }

    /** `bumpLocked`: the generation always moves, the stamp only for a configuration leaf. */
    method BumpLocked(ds: Datastore, paths: seq<string>, now: Time)
      modifies this`generation, this`configChanged
      ensures TrackOf(ds) == Bump(options, old(TrackOf(ds)), Elements(paths), now)
      ensures forall other: Datastore :: other != ds ==> TrackOf(other) == old(TrackOf(other))
    {
      generation := generation[ds := (if ds in generation then generation[ds] else 0) + 1];
      for i := 0 to |paths|
        invariant forall j :: 0 <= j < i ==> options.isState(paths[j])
        invariant configChanged == old(configChanged)
        invariant generation == old(generation)[ds := (if ds in old(generation) then old(generation)[ds] else 0) + 1]
      {
        if !options.isState(paths[i]) {
          assert paths[i] in Elements(paths);
          configChanged := configChanged[ds := now];
          return;
        }
      }
    }

    /** `recordWriteLocked`. */
    method RecordWriteLocked(ds: Datastore, paths: seq<string>, now: Time)
      modifies this`generation, this`configChanged
      ensures TrackOf(ds) == Bump(options, old(TrackOf(ds)), Elements(paths), now)
      ensures ds == Running ==> TrackOf(Candidate) == Bump(options, old(TrackOf(Candidate)), Elements(paths), now)
      ensures forall other: Datastore :: other != ds && !(ds == Running && other == Candidate) ==>
                TrackOf(other) == old(TrackOf(other))
    {
      BumpLocked(ds, paths, now);
      if ds == Running { BumpLocked(Candidate, paths, now); }
    }

    /** `recordDiffLocked`: the paths of a computed diff. */
    method RecordDiffLocked(ds: Datastore, ghost from: Values, ghost to: Values, diff: seq<Diff.Change>, now: Time)
      requires Diff.Describes(from, to, diff)
      modifies this`generation, this`configChanged
      ensures TrackOf(ds) == Bump(options, old(TrackOf(ds)), ChangedPaths(from, to), now)
      ensures forall other: Datastore :: other != ds ==> TrackOf(other) == old(TrackOf(other))
    {
      var paths := Diff.PathsOf(diff);
      forall p ensures p in paths <==> p in ChangedPaths(from, to) {
        Diff.PathListed(from, to, diff, p);
      }
      assert Elements(paths) == ChangedPaths(from, to);
      BumpLocked(ds, paths, now);
    }

    /** Puts one leaf into a datastore, and into candidate too when it is running (`mirror`). */
    method Put(ds: Datastore, path: string, value: Value)
      requires !ds.Other?
      modifies this`running, this`candidate, this`startup
      ensures running == if ds == Running then old(running)[path := value] else old(running)
      ensures candidate == if ds == Running || ds == Candidate then old(candidate)[path := value] else old(candidate)
      ensures startup == if ds == Startup then old(startup)[path := value] else old(startup)
    {
      match ds {
        case Running => running := running[path := value];
        case Candidate => candidate := candidate[path := value];
        case Startup => startup := startup[path := value];
      }
      if ds == Running { candidate := candidate[path := value]; }
    }

    /** Removes one leaf the same way. */
    method Drop(ds: Datastore, path: string)
      requires !ds.Other?
      modifies this`running, this`candidate, this`startup
      ensures running == if ds == Running then old(running) - {path} else old(running)
      ensures candidate == if ds == Running || ds == Candidate then old(candidate) - {path} else old(candidate)
      ensures startup == if ds == Startup then old(startup) - {path} else old(startup)
    {
      match ds {
        case Running => running := running - {path};
        case Candidate => candidate := candidate - {path};
        case Startup => startup := startup - {path};
      }
      if ds == Running { candidate := candidate - {path}; }
    }

    method Set(ds: Datastore, path: string, value: Value, now: Time) returns (err: Option<Error>)
      modifies this
      ensures View() == Step(options, old(View()), Op.Set(ds, path, value), now)
      ensures err == if !ValidPath(path) then Some(InvalidPath)
                     else if !Supported(value) then Some(InvalidValue)
                     else if ds.Other? then Some(UnknownDatastore)
                     else None
    {
      hide ValidPath, Supported;
      if !ValidPath(path) { return Some(InvalidPath); }
      if !Supported(value) { return Some(InvalidValue); }
      if ds.Other? { return Some(UnknownDatastore); }
      Put(ds, path, value);
      RecordWriteLocked(ds, [path], now);
      assert Elements([path]) == {path} == map[path := value].Keys + {};
      OverwriteOne(old(running), path, value);
      OverwriteOne(old(candidate), path, value);
      OverwriteOne(old(startup), path, value);
      hide Overwrite;
      return None;
    }

    method Delete(ds: Datastore, path: string, now: Time) returns (err: Option<Error>)
      modifies this
      ensures View() == Step(options, old(View()), Op.Delete(ds, path), now)
      ensures err == if ds.Other? then Some(UnknownDatastore)
                     else if path !in old(Contents(View(), ds)) then Some(NotFound)
                     else None
    {
      if ds.Other? { return Some(UnknownDatastore); }
      if path !in Contents(View(), ds) { return Some(NotFound); }
      Drop(ds, path);
      RecordWriteLocked(ds, [path], now);
      assert Elements([path]) == {path};
      var none: Values := map[];
      assert none.Keys + {path} == {path};
      assert forall m: Values :: Overwrite(m, none, {path}) == m - {path};
      return None;
    }

    /** The validation loops of `Apply`; map iteration order decides which fault is reported. */
    method CheckBatch(values: Values, deletions: seq<string>) returns (err: Option<Error>)
      ensures err.None? <==> ValidBatch(values, deletions)
      ensures err.Some? ==> err.value == InvalidPath || err.value == InvalidValue
    {
      var todo := values.Keys;
      while todo != {}
        invariant todo <= values.Keys
        invariant forall p :: p in values.Keys - todo ==> ValidPath(p) && Supported(values[p])
        decreases todo
      {
        var p :| p in todo;
        if !ValidPath(p) { return Some(InvalidPath); }
        if !Supported(values[p]) { return Some(InvalidValue); }
        todo := todo - {p};
      }
      for i := 0 to |deletions|
        invariant forall j :: 0 <= j < i ==> ValidPath(deletions[j])
      {
        if !ValidPath(deletions[i]) {
          assert deletions[i] in deletions;
          return Some(InvalidPath);
        }
      }
      return None;
    }

    method Apply(ds: Datastore, values: Values, deletions: seq<string>, now: Time) returns (err: Option<Error>)
      modifies this
      ensures View() == Step(options, old(View()), Op.Apply(ds, values, deletions), now)
      ensures err.None? <==> Effective(options, old(View()), Op.Apply(ds, values, deletions))
    {
      hide ValidBatch;
      err := CheckBatch(values, deletions);
      if err.Some? { return; }
      if ds.Other? { return Some(UnknownDatastore); }
      BatchStep(options, View(), ds, values, deletions, now);
      hide Step, Effective, Bump, TrackOf;
      WriteValues(ds, values);
      DropPaths(ds, deletions);
      var written := KeysOf(values);
      assert Elements(written + deletions) == values.Keys + Elements(deletions);
      RecordWriteLocked(ds, written + deletions, now);
      return None;
    }

    method KeysOf(values: Values) returns (keys: seq<string>)
      ensures Elements(keys) == values.Keys
    {
      keys := [];
      var todo := values.Keys;
      while todo != {}
        invariant todo <= values.Keys
        invariant Elements(keys) == values.Keys - todo
        decreases todo
      {
        var p :| p in todo;
        todo := todo - {p};
        assert Elements(keys + [p]) == Elements(keys) + {p};
        keys := keys + [p];
      }
    }

    method WriteValues(ds: Datastore, values: Values)
      requires !ds.Other?
      modifies this`running, this`candidate, this`startup
      ensures running == if ds == Running then old(running) + values else old(running)
      ensures candidate == if ds == Running || ds == Candidate then old(candidate) + values else old(candidate)
      ensures startup == if ds == Startup then old(startup) + values else old(startup)
    {
      var todo := values.Keys;
      while todo != {}
        invariant todo <= values.Keys
        invariant running == if ds == Running then old(running) + (values - todo) else old(running)
        invariant candidate == if ds == Running || ds == Candidate
                  then old(candidate) + (values - todo) else old(candidate)
        invariant startup == if ds == Startup then old(startup) + (values - todo) else old(startup)
        decreases todo
      {
        var p :| p in todo;
        assert (values - todo)[p := values[p]] == values - (todo - {p});
        todo := todo - {p};
        Put(ds, p, values[p]);
      }
      assert values - todo == values;
    }

    method DropPaths(ds: Datastore, deletions: seq<string>)
      requires !ds.Other?
      modifies this`running, this`candidate, this`startup
      ensures running == if ds == Running then old(running) - Elements(deletions) else old(running)
      ensures candidate == if ds == Running || ds == Candidate
              then old(candidate) - Elements(deletions) else old(candidate)
      ensures startup == if ds == Startup then old(startup) - Elements(deletions) else old(startup)
    {
      for i := 0 to |deletions|
        invariant running == if ds == Running then old(running) - Elements(deletions[..i]) else old(running)
        invariant candidate == if ds == Running || ds == Candidate
                  then old(candidate) - Elements(deletions[..i]) else old(candidate)
        invariant startup == if ds == Startup then old(startup) - Elements(deletions[..i]) else old(startup)
      {
        assert Elements(deletions[..i + 1]) == Elements(deletions[..i]) + {deletions[i]} by {
          assert deletions[..i + 1] == deletions[..i] + [deletions[i]];
        }
        Drop(ds, deletions[i]);
      }
      assert deletions[..|deletions|] == deletions;
    }

    /** `Commit`; `saved` is the outcome of writing the startup file, when there is one. */
    method Commit(saved: bool, now: Time) returns (err: Option<Error>)
      modifies this
      ensures View() == Step(options, old(View()), Op.Commit(saved), now)
      ensures err == if !options.valid(old(candidate)) then Some(Validation)
                     else if options.persists && !saved then Some(SaveFailed)
                     else None
      ensures err.None? ==> running == candidate == startup == old(candidate)
      ensures forall diff :: Diff.Describes(old(running), old(candidate), diff) && err.None? ==>
                running == Diff.Patch(old(running), diff)
    {
      if !options.valid(candidate) { return Some(Validation); }
      var next := candidate;
      var diff := Diff.DiffValues(running, next);
      if options.persists && !saved { return Some(SaveFailed); }
      ghost var before := running;
      Install(next, diff, now);
      forall d | Diff.Describes(before, next, d) ensures next == Diff.Patch(before, d) {
        Diff.DiffPatches(before, next, d);
      }
      return None;
    }

    /** The shared tail of `Commit` and `LoadStartup`. */
    method Install(next: Values, diff: seq<Diff.Change>, now: Time)
      requires Diff.Describes(running, next, diff)
      modifies this
      ensures View() == ReplaceAll(options, old(View()), next, now)
    {
      ghost var before := running;
      running, startup, candidate := next, next, next;
      RecordDiffLocked(Running, before, next, diff, now);
      RecordDiffLocked(Candidate, before, next, diff, now);
      RecordDiffLocked(Startup, before, next, diff, now);
    }

    method Rollback(now: Time)
      modifies this
      ensures View() == Step(options, old(View()), Op.Rollback, now)
      ensures candidate == running == old(running) && startup == old(startup)
    {
      var diff := Diff.DiffValues(candidate, running);
      ghost var before := candidate;
      candidate := running;
      RecordDiffLocked(Candidate, before, running, diff, now);
    }

    method Snapshot() returns (values: Values)
      ensures values == running
    {
      values := running;
    }

    method Restore(values: Values, saved: bool, now: Time) returns (err: Option<Error>)
      modifies this
      ensures View() == Step(options, old(View()), Op.Restore(values, saved), now)
      ensures err == if options.persists && !saved then Some(SaveFailed) else None
      ensures err.None? ==> running == startup == values && candidate == old(candidate)
    {
      var diff := Diff.DiffValues(running, values);
      if options.persists && !saved { return Some(SaveFailed); }
      ghost var before := running;
      running, startup := values, values;
      RecordDiffLocked(Running, before, values, diff, now);
      RecordDiffLocked(Startup, before, values, diff, now);
      return None;
    }

    /** `LoadStartup`; with persistence switched off it succeeds and does nothing. */
    method LoadStartup(loaded: Option<Values>, now: Time) returns (err: Option<Error>)
      modifies this
      ensures View() == Step(options, old(View()), Op.LoadStartup(loaded), now)
      ensures err == if !options.persists then None
                     else if loaded.None? then Some(LoadFailed)
                     else if !options.valid(ConfigOnly(options, loaded.value)) then Some(Validation)
                     else None
      ensures options.persists && err.None? ==>
                && running == candidate == startup
                && forall p :: ValueAt(running, p) == if options.isState(p) then None else ValueAt(loaded.value, p)
    {
      if !options.persists { return None; }
      if loaded.None? { return Some(LoadFailed); }
      var values := DropState(loaded.value);
      if !options.valid(values) { return Some(Validation); }
      var diff := Diff.DiffValues(running, values);
      Install(values, diff, now);
      return None;
    }

    /** The filter loop of `LoadStartup`, deleting state leaves from the loaded map. */
    method DropState(loaded: Values) returns (values: Values)
      ensures values == ConfigOnly(options, loaded)
    {
      values := loaded;
      var todo := loaded.Keys;
      while todo != {}
        invariant todo <= loaded.Keys
        invariant values == map p | p in loaded && (p in todo || !options.isState(p)) :: loaded[p]
        decreases todo
      {
        var p :| p in todo;
        todo := todo - {p};
        if options.isState(p) { values := values - {p}; }
      }
    }
  }
}
