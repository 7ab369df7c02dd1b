# TriadSim verification

TriadSim simulates a network device whose management planes (NETCONF, RESTCONF, gNMI, SNMP) and
simulated domains (Ethernet, radio, synchronization) share one datastore, one router and one event
bus. This project models the parts that keep them consistent and proves what holds of them in
every run. `dafny verify dfyconfig.toml` checks the whole of it.

Code that updates state in place is a class or a method with loops, proved against a specification
function; the laws are lemmas about that function. Interleavings are state machines over their
atomic steps. Time, the outcome of saving the startup file, the validation of a device, the
conversion of text to leaf values and the index built from a device are parameters.

| files | what they model |
|---|---|
| `Paths`, `Text` | the path grammar a/b[c=d]/e and the textual "below" test |
| `Leaves`, `Diff`, `Datastores`, `Memory` | running, candidate and startup, their mirroring, generations and stamps |
| `BindingCache` | the memoized object index, filled under races |
| `ConfirmedCommit`, `Confirmed`, `CommitLocks` | confirmed commit: whole operations over a fake clock, and the lock-protected blocks one by one |
| `Schema`, `EditPlan`, `EditMeaning`, `Editor`, `EditLaws`, `EditTransaction` | the edit engine: what a request means, the walk that carries it out, and the one atomic batch |
| `ReadTree`, `TreeShape`, `Reader`, `Listing` | the read engine |
| `DeviceTree`, `Hydrate`, `HydrateEntries`, `HydrateFresh`, `HydrateTakes`, `Prune`, `ListOrder`, `Rebuild`, `RebuildOrder`, `FromValues`, `NestedLists`, `WalkLeaves`, `SeedRebuild` | the device rebuilt from the flat map, and back |
| `Framing`, `FramingLaws`, `ChunkErrors`, `FramedStream`, `DecimalPeer` | both NETCONF framings |
| `Oid`, `OidText`, `Sorting`, `SnmpIndex`, `SnmpWalk` | the order of object identifiers, the sorted index, GetNext and GetBulk |
| `Alarms`, `AlarmLaws`, `AlarmStates`, `AlarmRuns`, `Domains` | radio alarms, the bounded bus and the PTP clock together |
| `Storm`, `StormControl` | the sliding-window storm policer |
| `Atpc` | the transmit power control loop |

## Where code and documentation differ

The model follows the code.

Where a promise does not hold, a lemma gives an input that breaks it and another the exact condition.

- A restore is not mirrored into candidate although the store says every mutation of running is. The restored value survives commits and rollbacks exactly as `Datastores.RestoreSurvivesIff` says; `Datastores.RestoreIsNotMirrored` is a run in which it does not.
- A startup file that does not exist loads as an empty content and is installed, although `LoadStartup` says it is then a no-op (`Datastores.MissingFileEmptiesRunning`, `Datastores.MissingFileKeepsIff`).
- The rebuild says list instances keep their declaration order and unmentioned leaves their template value. For a list inside a list neither holds: its template entries are always dropped and made anew, in the order of the stored texts (`NestedLists.RebuildNested`). `RebuildOrder.OrderKeptIff` says when the order is kept, and `Rebuild.RebuildTheorem` what every leaf reads.
- A key predicate on the last segment of a read prefix that is not the list's own is ignored, not refused (`Reader.ImproperPrefixReads`, `Reader.ReadIsFilterIff`).
- A predicate on a segment that is no list goes unnoticed when a leaf is looked up, so such paths can be stored; `Read` does not show them (`Reader.StrayPredicateHides`, `Reader.ShownIff`).
- Chunk sizes are hexadecimal on both sides, "as RFC 6242 requires"; its section 4.2 has decimal ones. The two agree exactly on sizes below ten (`DecimalPeer.PeerMisreads`, `DecimalPeer.PeerReadsSizeIff`, `DecimalPeer.PeerSizeIsReadIff`), and an empty message is written with the size zero, which that grammar does not have (`FramingLaws.ChunkedIsWritten`).
- A confirming commit can be reverted by a timer that fires before it takes the lock, and a follow-up does not stop a callback that already left the timer (`CommitLocks.RevertedAfterConfirming`, `CommitLocks.FateOf`). The rollback target can miss a write made after its snapshot (`CommitLocks.WriteBetweenIsLost`, `CommitLocks.TargetAgreesIff`).
- The clock follows the last link-down alarm of any link, so with several links it can be locked over one that is down (`AlarmRuns.TwoLinksDisagree`, `AlarmLaws.DomainsAgree`); with one link it agrees with the link unless a full queue loses the alarm that matters (`AlarmRuns.LostRaiseDisagrees`, `AlarmRuns.LostClearDisagrees`, `AlarmLaws.OneLinkAgrees`).
- The storm threshold is kept unless the uint32 count of a window wraps (`Storm.WrappedLoadPasses`, `Storm.AdmitsShareIff`).
- The comparison of object identifiers is no order once components that are no numbers mix in (`Oid.MixedIsNoOrder`, `Oid.OrdersIffCoherent`).

## Model

| member | source | states |
|---|---|---|
| `Paths.FormatPath` | internal/router/path.go:84-100 | the builder loop prints exactly the slash-joined segments of the path |
| `Paths.ParsePath` | internal/router/path.go:34-52 | a text is accepted exactly when some non-empty well-formed segment list prints as it, and then that list is returned |
| `Paths.ParseFormat` | internal/router/path.go:34-100 | printing then parsing gives the list back if and only if the list is non-empty and well-formed |
| `Paths.FormatParse` | internal/router/path.go:34-100 | parsing then printing gives back every accepted text, and accepted texts give well-formed lists |
| `Paths.FormatInjective` | internal/router/path.go:84-100 | two well-formed paths with the same text are the same path |
| `Paths.BelowIsProperPrefix` | internal/store/memory.go:345-370 | the textual test HasPrefix(q, p + "/") holds exactly when the segments of p are a proper prefix of those of q |
| `Leaves.SortPaths` | internal/store/diff.go:20-30 | the paths in strictly increasing text order, none lost or added |
| `Leaves.SortedUnique` | internal/store/diff.go:20-30 | a strictly sorted list is determined by its elements, so the order of a diff is unique |
| `Leaves.LessIff` | internal/store/diff.go:20-30 | the order of texts: one is a beginning of the other, or has the smaller character where they first differ |
| `Diff.DiffValues` | internal/store/diff.go:12-43 | the loops produce a list that is strictly sorted and names exactly the paths on which the two contents differ |
| `Diff.DiffPatches` | internal/store/diff.go:12-43 | patching the first content with its diff gives the second |
| `Diff.InverseDescribes` | internal/store/diff.go:12-43 | the inverted diff is the diff the other way round and undoes the patch |
| `Diff.DiffMinimal` | internal/store/diff.go:12-43 | the diff is unique, empty exactly for equal contents, and every patch that does the same work names at least its paths |
| `Memory.Memory.constructor` | internal/store/memory.go:71-91 | a new store is empty in all three datastores, with generations at zero and no stamp |
| `Memory.Memory.BumpLocked` | internal/store/memory.go:156-165 | the generation moves on every write, the configuration stamp only when a written path is a configuration leaf |
| `Memory.Memory.RecordDiffLocked` | internal/store/memory.go:168-175 | recording a computed diff stamps the configuration exactly when some differing path is a configuration leaf; the generation moves even for an empty diff |
| `Memory.Memory.Put` | internal/store/memory.go:206-215 | one leaf is put into a datastore and, when that is running, into candidate too |
| `Memory.Memory.Set` | internal/store/memory.go:246-271 | a valid write to running or candidate is one Step of the store (running writes mirrored); an invalid path, value or datastore changes nothing |
| `Memory.Memory.Delete` | internal/store/memory.go:273-296 | a delete of a stored path is one Step, mirrored from running; a missing path or wrong datastore changes nothing |
| `Memory.Memory.Apply` | internal/store/memory.go:299-340 | a batch is one Step: all of its values and deletions or, if any of them is invalid, nothing |
| `Memory.Memory.Commit` | internal/store/memory.go:394-424 | running, candidate and startup all become candidate, which patches running by exactly the diff taken before; a refused validation or failed save changes nothing |
| `Memory.Memory.Rollback` | internal/store/memory.go:427-440 | candidate becomes running again; running and startup stay |
| `Memory.Memory.Restore` | internal/store/memory.go:461-482 | running and startup become the given content and candidate stays; a refused or unsaved one changes nothing |
| `Memory.Memory.LoadStartup` | internal/store/memory.go:494-537 | every loaded configuration leaf is held with its value, and no state leaf, in all three datastores, unless persistence is off, reading fails or the content is invalid |
| `Datastores.StepKeepsMirror` | internal/store/memory.go:202-340 | every operation keeps candidate and running equal outside the pending paths |
| `Datastores.MirrorInvariant` | internal/store/memory.go:202-482 | in every run candidate and running agree on every path except those edited through candidate and not since rewritten through running, committed or rolled back, and those a restore changed |
| `Datastores.CommitTouchesOnlyPending` | internal/store/memory.go:394-424 | after any run a commit changes running only at pending paths |
| `Datastores.RunningIsAuthoritative` | internal/store/memory.go:246-340 | after a write or delete on running, from any reachable state, no later sequence of commits and rollbacks reverts the write or resurrects the delete |
| `Datastores.RunningWriteSurvives` | internal/store/memory.go:394-440 | what running and candidate agree on at a path stays through every run that does not rewrite that path |
| `Datastores.RestoreIsNotMirrored` | internal/store/memory.go:454-482 | a run from the empty store, for any validator that takes it, in which the commit after a restore puts the un-restored candidate back |
| `Datastores.RestoreSurvivesCommitIff` | internal/store/memory.go:454-482 | at every path, the next commit leaves running as restored if and only if candidate already held that there |
| `Datastores.RestoreSurvivesIff` | internal/store/memory.go:394-482 | over whole runs of commits and rollbacks, running keeps what was restored at a path if and only if candidate held it already or no effective commit comes before the first effective rollback |
| `Datastores.MissingFileKeepsIff` | internal/store/memory.go:484-537 | loading a missing startup file leaves the datastores as they were if and only if persistence is off, the validator refuses an empty content, or all three are empty already |
| `Datastores.MissingFileEmptiesRunning` | internal/store/memory.go:484-537 | a run in which it empties a running that was not empty |
| `Datastores.RunningStamp` | internal/store/memory.go:143-174 | the stamp of running is set to now exactly when an operation writes a configuration leaf of running, so a changed configuration is always stamped and a state-only step never is |
| `Datastores.PutsAreHeld` | internal/store/memory.go:246-537 | after every operation each of the three datastores holds, at each path, what the operation puts there, or else what it held; and putting anything moves its generation |
| `Datastores.HoldsLastPut` | internal/store/memory.go:246-537 | after any run each datastore, startup included, holds at each path what was last put there |
| `Datastores.RestartKeepsConfig` | internal/store/memory.go:394-537 | a store restarted from the file a commit wrote holds every configuration leaf of running with its value, and no state leaf |
| `Datastores.StampFollowsWrites` | internal/store/memory.go:143-174 | the stamp of each datastore is set exactly by the operations that write a configuration leaf in it |
| `Datastores.ValidPathIff` | internal/store/memory.go:176-187 | a path is taken exactly when it is not empty, has no white space around it and no empty segment |
| `Datastores.GenerationGrows` | internal/store/memory.go:143-174 | a generation grows by exactly one with every effective operation that addresses its datastore, even one that changes nothing, and otherwise stands still; so it grows whenever the content changes |
| `Datastores.SameGenerationSameContents` | internal/store/memory.go:556-571 | over a whole run, equal generations mean equal contents throughout |
| `Datastores.ConfigUnchangedSinceStamp` | internal/store/memory.go:573-585 | over a whole run none of whose operations happened at the time running is stamped with at the end, its configuration did not change |
| `BindingCache.HitIsWitnessed` | internal/router/router.go:668-725 | a matching stamp proves freshness: the cached index was computed from a content held during the looking call |
| `BindingCache.MoveKeepsInv` | internal/router/router.go:668-725 | every single lock-protected step of any participant keeps the cache and call invariant |
| `BindingCache.Linearizable` | internal/router/router.go:668-725 | under every interleaving with fewer than 2^64 writes, each finished call returned the index, or the rebuild failure, of a content the datastore held between its start and its end |
| `BindingCache.UndisturbedCall` | internal/router/router.go:668-725 | from any reachable cache a call that nothing disturbs returns the index of the present content and leaves it cached |
| `BindingCache.RepeatedCallHits` | internal/router/router.go:668-725 | the next call, if nothing was written, returns it without reading the store |
| `BindingCache.StampReuseIsStale` | internal/router/router.go:668-725 | with 2^64 writes the stamp repeats and a call is served an overwritten index, so the bound is the best possible |
| `ConfirmedCommit.AdvanceOutcome` | internal/clock/fake.go:43-64 | advancing the clock runs the rollback exactly when the pending timer becomes due, and is otherwise only the passage of time |
| `ConfirmedCommit.AlwaysArmed` | internal/netconf/ops/confirmed_commit.go:80-182 | in every run the pending commit owns the only active timer, and that timer is armed for it |
| `ConfirmedCommit.TargetIsChainBase` | internal/netconf/ops/confirmed_commit.go:80-112 | in every run what is pending is the chain read off the run: made by its owner, extended only by it, with running before its first commit as rollback target and the timeout of its latest commit, 600 seconds by default, as deadline |
| `ConfirmedCommit.RunFollowsChain` | internal/netconf/ops/confirmed_commit.go:80-182 | in every run and for every action: something is pending afterwards exactly when the chain says so, and the datastores and the clock move as it says |
| `ConfirmedCommit.UnconfirmedIsReverted` | internal/netconf/ops/confirmed_commit.go:80-182 | a first confirmed commit is pending at once and, whatever is written and attempted afterwards, the clock reaching its timeout without a confirmation puts running and startup back to running before it |
| `ConfirmedCommit.RevertsToChainBase` | internal/netconf/ops/confirmed_commit.go:114-182 | when the owning session ends or the deadline is reached, running and startup become the chain base and candidate is untouched; any other session end or earlier moment reverts nothing |
| `ConfirmedCommit.NothingPendingNothingReverts` | internal/netconf/ops/confirmed_commit.go:114-182 | with nothing pending, clock advances, session ends and shutdowns leave every datastore as it is |
| `ConfirmedCommit.ConfirmedForGood` | internal/netconf/ops/commit.go:34-55 | after a confirming commit, from any reachable point, no later clock advance, session end or shutdown changes a datastore |
| `ConfirmedCommit.RefusedChangesNothing` | internal/netconf/ops/confirmed_commit.go:80-112 | a confirmed commit of another session, or one that fails to apply, leaves the pending one armed with its old target and deadline |
| `Confirmed.FakeClock.NextDueLocked` | internal/clock/fake.go:93-112 | the loop finds the active timer with the earliest deadline not after the target, the earlier scheduled one on a tie |
| `Confirmed.Tracker.Apply` | internal/netconf/ops/confirmed_commit.go:80-112 | for any rollback target: refused for another session, nothing armed when the commit fails; an accepted one is pending with an active timer at now plus the timeout, 600 by default, and a follow-up keeps the first target |
| `Confirmed.Tracker.Confirm` | internal/netconf/ops/confirmed_commit.go:114-126 | ends the pending commit for good and stops its timer |
| `Confirmed.Tracker.SessionEnded` | internal/netconf/ops/confirmed_commit.go:129-145 | reverts the pending commit of that session and no other |
| `Confirmed.Tracker.FireCallback` | internal/netconf/ops/confirmed_commit.go:169-182 | reverts only if the pending commit is still the one the callback was armed for |
| `Confirmed.Tracker.Advance` | internal/clock/fake.go:43-64 | the loop fires every timer that becomes due, in deadline order, and ends at the target time |
| `Confirmed.Tracker.PlainCommit` | internal/netconf/ops/commit.go:34-55 | a successful commit confirms what is pending; a failed one leaves it armed |
| `Confirmed.Tracker.ConfirmedCommit` | internal/netconf/ops/commit.go:57-78 | takes the rollback target before the commit applies |
| `CommitLocks.AlwaysExactlyOnce` | internal/netconf/ops/confirmed_commit.go:80-182 | under every interleaving of the locked blocks at most one commit is pending, and every armed commit is resolved exactly once and its rollback claimed and run at most once |
| `CommitLocks.StaleCallbackIsIgnored` | internal/netconf/ops/confirmed_commit.go:169-182 | once a commit is confirmed, claimed or closed, its callback does nothing however late or often it comes |
| `CommitLocks.FateOf` | internal/netconf/ops/confirmed_commit.go:80-182 | from every consistent state and under every sequence of locked blocks, a pending commit is reverted if and only if the first block that ends it is the end of its own session or its own timer callback, and the rollback restores its own target |
| `CommitLocks.ConfirmationHoldsIff` | internal/netconf/ops/commit.go:34-55 | a commit that a plain commit confirms is reverted all the same if and only if its session end or its callback takes the lock between the store commit and the confirmation |
| `CommitLocks.FollowUpDecidesNothing` | internal/netconf/ops/confirmed_commit.go:91-112 | with or without a follow-up, the same later blocks revert the commit |
| `CommitLocks.RevertedAfterConfirming` | internal/netconf/ops/commit.go:34-55 | a run from the empty store in which a configuration the client was told is committed is reverted by a callback older than the follow-up |
| `CommitLocks.RunningIsLastPut` | internal/netconf/ops/confirmed_commit.go:80-182 | after any locked blocks running holds, at each path, what the last block that writes there wrote, or else what it held |
| `CommitLocks.TargetAgreesIff` | internal/netconf/ops/commit.go:62-77 | at each path the rollback target, a snapshot taken outside the lock, is the running content just before the commit if and only if no block in between writes the path or the last that does writes the value of the snapshot |
| `CommitLocks.UnmovedTargetIsPreCommit` | internal/netconf/ops/commit.go:62-77 | hence it is that content whenever the generation of running did not move in between |
| `CommitLocks.WriteBetweenIsLost` | internal/netconf/ops/commit.go:62-77 | a run in which a write between the snapshot and the block is undone by the rollback |
| `Schema.InnerIsNotLeaf` | internal/router/schema.go:199-243 | a path with children is never a leaf |
| `Schema.LeafHasNothingBelow` | internal/router/reflect.go:146-198 | no leaf lies below a leaf |
| `Schema.ChildrenExtend` | internal/router/schema.go:199-243 | how one more segment changes what the schema walk and the leaf lookup find |
| `EditPlan.PerformConcat` | internal/datatree/edit.go:125-317 | performing two action lists one after the other is performing their concatenation |
| `EditPlan.PlanSound` | internal/datatree/edit.go:125-254 | the actions of any document lie below its base, put converted values on configuration leaves only and clear inner nodes only |
| `EditPlan.PerformFrame` | internal/datatree/edit.go:153-317 | an edit leaves every state leaf and everything outside its base as it was, keeps the map within the schema, and brings in only converted values |
| `EditPlan.PlanSpellable` | internal/datatree/edit.go:125-254 | every path an edit writes has a text that parses back to it |
| `Editor.Editor.Contains` | internal/datatree/edit.go:288-301 | finds out whether the node holds configuration data |
| `Editor.Editor.Wipe` | internal/datatree/edit.go:303-311 | drops exactly the configuration leaves strictly below the node |
| `Editor.Editor.PrepareSubtree` | internal/datatree/edit.go:267-285 | behaves as the planned check and clear of the node, error for error |
| `Editor.Editor.EditLeaf` | internal/datatree/edit.go:153-199 | behaves as the planned actions of the leaf, error for error |
| `Editor.Editor.DropLeaf` | internal/datatree/edit.go:153-172 | the delete and remove cases of that |
| `Editor.Editor.PutLeaf` | internal/datatree/edit.go:174-199 | the merge, replace and create cases, with the conversion errors told apart |
| `Editor.Editor.Walk` | internal/datatree/edit.go:125-150 | the recursive in-place walk ends with the error of the document-order composition of its simple actions, or with exactly its map, and is the answer to the document as its meaning says; it keeps "writable is a configuration leaf" |
| `Editor.Editor.WalkAll` | internal/datatree/edit.go:202-254 | the same for the documents of one level: what it ends with is the answer to them |
| `EditMeaning.RequestAnswered` | internal/datatree/edit.go:125-285 | every request, with whatever operation attributes, is answered by what its documents mean place by place: the first document in document order that is refused decides the error, and otherwise every path holds what the last document to touch it leaves there |
| `EditMeaning.OneAnswer` | internal/datatree/edit.go:125-285 | a request on a map has one such answer, so the meaning leaves nothing open |
| `EditMeaning.FromCarried` | internal/datatree/edit.go:202-254 | the plan of a level is its visited documents one after the other, children after their parent, each with its own error and effect |
| `EditMeaning.ListsFrom` | internal/datatree/edit.go:202-254 | the visits are exactly those of the places of the request that are reached, in strict document order |
| `EditMeaning.MergeHolds` | internal/datatree/edit.go:153-254 | after an accepted merge without attributes every path holds the converted value of the trimmed text of the last leaf document that spells it, and otherwise what it held |
| `EditMeaning.ReplaceHolds` | internal/datatree/edit.go:153-285 | the same for replace: below a replaced node a configuration path that no document spells from there on is gone |
| `EditMeaning.OperationIs` | internal/datatree/edit.go:319-332 | the operation of a document is the one its attribute names, or else the inherited one; any other attribute is invalid |
| `EditMeaning.KeyIsText` | internal/datatree/edit.go:333-345 | the key of a list entry is the trimmed text of its first key child, and may hold no slash or bracket |
| `EditLaws.PerformAt` | internal/datatree/edit.go:125-317 | the map after an accepted edit, read at one path, is the fate of that path under its actions |
| `EditLaws.LastActionDecides` | internal/datatree/edit.go:125-317 | the last action that concerns a path decides: a fixed outcome, or what was there |
| `EditLaws.PlainRequestIdempotent` | internal/datatree/edit.go:125-317 | an attribute-free merge or replace is accepted exactly when its documents fit the schema, whatever the datastore holds, and doing it twice is doing it once |
| `EditLaws.AcceptedAgainChangesNothing` | internal/datatree/edit.go:125-317 | any request, attributes and checks included, that is accepted a second time changes nothing then |
| `EditLaws.ReplaceForgets` | internal/datatree/edit.go:267-285 | after a replace, the configuration below the node does not depend on what was there before |
| `EditLaws.CreateThenDelete` | internal/datatree/edit.go:226-317 | creating a list entry and deleting it gives back the original map exactly |
| `EditLaws.CreatedEntry` | internal/datatree/edit.go:226-317 | an accepted create found no data there, leaves data there, and moved nothing else |
| `EditTransaction.Collect` | internal/datatree/read.go:225-238 | yields a snapshot exactly when every stored text parses and resolves, in the device template, to a leaf, and then the same leaves |
| `EditTransaction.DiffBatch` | internal/datatree/edit.go:88-108 | the loops find exactly the leaves to set and the paths to drop |
| `EditTransaction.BatchIsConfig` | internal/datatree/edit.go:53-108 | the batch of an accepted edit names configuration leaves only, with supported values that need no further conversion |
| `EditTransaction.LeafTextValid` | internal/store/memory.go:178-186 | the text of every leaf of the schema passes the path check of the store |
| `EditTransaction.BatchIsValid` | internal/store/memory.go:299-316 | the store accepts the batch of every accepted edit |
| `EditTransaction.BatchLands` | internal/datatree/edit.go:88-108 | writing the batch over the stored text of the snapshot gives the stored text of the proposal |
| `EditTransaction.Propose` | internal/datatree/edit.go:53-86 | read, edit and validate together give the specified outcome: unreadable, the error of the plan, the validation error, or the proposal |
| `EditTransaction.WriteBack` | internal/router/router.go:509-522 | a difference that is ready is written in one store batch, accepted, after which the datastore holds the proposal; a failure changes nothing |
| `EditTransaction.Apply` | internal/datatree/edit.go:42-86 | an edit is accepted if and only if the datastore can be read, the documents are answered without a refusal and the result validates; then the datastore holds, whole, what they leave, and otherwise it is as it was and the error is that of the first refused document or of the validation |
| `EditTransaction.ApplyTwice` | internal/datatree/edit.go:42-86 | making a merge or replace request without operation attributes twice has the contract of making it once, down to the stored content and the error |
| `EditTransaction.StateWritesSurvive` | internal/datatree/edit.go:53-108 | the batch of an accepted edit is accepted after any state writes of the domains since the snapshot; they survive it, and the configuration becomes exactly the proposal |
| `EditTransaction.InterleavedWriteSurvivesIff` | internal/datatree/edit.go:53-108 | whatever was written since the snapshot, configuration included, the batch is accepted; the write at a path survives if and only if the edit does not change that path or proposes the same |
| `EditTransaction.BatchNames` | internal/datatree/edit.go:88-108 | the batch names exactly the paths on which snapshot and proposal differ |
| `EditTransaction.StateWritesKeepConfig` | internal/router/router.go:422-460 | state writes never move a configuration leaf |
| `EditTransaction.BatchMissesState` | internal/datatree/edit.go:88-108 | no state leaf is named by the batch of an accepted edit |
| `ReadTree.InstancesOf` | internal/datatree/read.go:241-285 | lists every instance the map mentions right below the prefix, each once |
| `ReadTree.SortEntries` | internal/datatree/read.go:288-300 | a rearrangement of the entries, in key order whenever the comparison orders these keys |
| `ReadTree.PerChildLists` | internal/datatree/read.go:116-155 | nodes that each list what stands under one child together list everything under the prefix, each leaf once |
| `Reader.BuildChildren` | internal/datatree/read.go:116-155 | one node per child with data, in schema order, containers and lists always, each with its path and listing exactly the selected leaves under it |
| `Reader.BuildEntries` | internal/datatree/read.go:167-219 | one entry per instance, with its path and listing exactly its leaves, in key order where the keys are comparable |
| `Reader.BuildEntry` | internal/datatree/read.go:180-216 | the key leaf first, every other node after it in schema order, and every leaf of the entry once |
| `Reader.Read` | internal/datatree/read.go:53-95 | the leaves of the returned tree are the selected stored leaves for the prefix, each once with its own value; the tree has the form of the schema down to every list entry; "no data" is told only of a leaf, of one list entry and of what the schema lacks; an unknown parent is an error |
| `TreeShape.EntryLevel` | internal/datatree/read.go:180-216 | moving the key leaf of an entry to the front keeps everything else in schema order |
| `Reader.Narrow` | internal/datatree/read.go:79-95 | of the node found under the last name, a list with a key is narrowed to one entry and anything else returned whole |
| `Reader.ListEntry` | internal/datatree/read.go:98-113 | narrows the list to the one entry of that key, or to nothing |
| `Reader.ReadIsFilterIff` | internal/datatree/read.go:53-113 | a read is the filter of the flat map by the prefix if and only if the key predicate of its last segment is the list's own or the map holds no selected leaf under the bare name (for a list, in the entry of the bare key value); an improper predicate is ignored, not rejected |
| `Reader.ImproperPrefixReads` | internal/datatree/read.go:53-113 | a read of a leaf with a predicate it does not have, which returns the leaf |
| `Reader.StrictIff` | internal/router/reflect.go:146-198 | of the paths that resolve to a leaf, the strictly spelled ones are those with no key predicate on a segment that is no list |
| `Reader.ShownIff` | internal/datatree/read.go:53-95 | a stored path is shown by the full read if and only if it has no such predicate |
| `Reader.StrayPredicateHides` | internal/datatree/read.go:53-95 | a stored path that no read, of any prefix and selection, shows |
| `Reader.SelectionsPartition` | internal/datatree/read.go:41-51 | for every prefix, leaves and bare lists included: the configuration selection returns exactly the configuration leaves of the full read, the state selection exactly the others, each with its value |
| `DeviceTree.MatchField` | internal/router/reflect.go:33-68 | the loop finds the longest matching path tag, the first one of that length |
| `DeviceTree.LongestMatch` | internal/router/reflect.go:33-68 | no matching tag is longer than the one found, and none as long comes before it |
| `DeviceTree.OnlyMatch` | internal/router/reflect.go:33-68 | with tags none of which is a prefix of a sibling's, a matching tag is the one found |
| `Hydrate.AssignReads` | internal/router/hydrate.go:269-314 | assigning a strictly spelled leaf succeeds, keeps the device well-typed, and the leaf reads back |
| `Hydrate.AssignFrame` | internal/router/hydrate.go:269-382 | an assignment leaves every other readable leaf as it was |
| `Hydrate.PrepareEnters` | internal/router/hydrate.go:334-382 | appending a list entry neither shows nor hides any other entry |
| `HydrateEntries.AssignEntries` | internal/router/hydrate.go:269-382 | after an assignment the list entries, nested ones included, are those there before and those the path goes through |
| `HydrateEntries.AssignWithin` | internal/router/hydrate.go:269-382 | an assignment brings no leaf into being that a device holding the assigned leaf could lack |
| `HydrateFresh.AssignMakes` | internal/router/hydrate.go:269-382 | after an assignment, a leaf that was not there and was not written is there if and only if the path goes through its innermost optional struct or list entry, and then holds the entry's key or a zero value |
| `HydrateTakes.AssignTakes` | internal/router/hydrate.go:269-382 | in a device of the right shape an assignment succeeds if and only if the path leads by its names and list keys to a scalar that can hold the value, whatever was assigned before |
| `Prune.NewHydrator` | internal/router/hydrate.go:70-99 | fails exactly when a stored path does not parse, and otherwise records exactly the list entries that stored paths go through |
| `Prune.PruneList` | internal/router/hydrate.go:152-185 | keeps the elements whose key is recorded, in their order |
| `Prune.PruneReads` | internal/router/hydrate.go:105-140 | a leaf survives the prune, with its value, exactly when every list entry on its path is looked up as recorded |
| `Prune.PruneEntries` | internal/router/hydrate.go:105-140 | a list entry survives the prune exactly when every list entry on its path, itself included, is looked up as recorded |
| `Prune.NestedNotSpared` | internal/router/hydrate.go:124-138 | no template entry of a list inside a list survives, because such a list is looked up under a path that carries a predicate |
| `Prune.SparedLeaf` | internal/router/hydrate.go:105-185 | a template leaf survives exactly when it is in no list, or in a single list whose entry is recorded |
| `Prune.RecordedIsStored` | internal/router/hydrate.go:70-99 | an entry of an outermost list is recorded exactly when some stored leaf lies in it |
| `ListOrder.AssignKeys` | internal/router/hydrate.go:269-382 | after an assignment every list has the keys it had, in order, and at the end the key the path goes through if that is new |
| `ListOrder.PruneKeys` | internal/router/hydrate.go:105-185 | after the prune an outermost list has its recorded keys in template order, and a list inside a list has none |
| `ListOrder.RecordedKeys` | internal/router/hydrate.go:70-99 | the keys recorded for an outermost list are those some stored leaf goes through |
| `Rebuild.AllRead` | internal/router/hydrate.go:46-54 | after all assignments every stored leaf reads back, in whatever order they were made |
| `Rebuild.AllEntries` | internal/router/hydrate.go:46-54 | after all assignments the entries are those of the start and those some path goes through |
| `Rebuild.AllMake` | internal/router/hydrate.go:46-54 | the same over all assignments, in whatever order |
| `FromValues.AssignEach` | internal/router/hydrate.go:46-54 | the loop is the composition of the single assignments, stopping at the first failure |
| `Rebuild.RebuildTheorem` | internal/router/hydrate.go:31-56 | the rebuilt device is the template for an empty map; otherwise its list entries, nested ones included, are exactly those some stored leaf lies in, and at every address it holds the stored value, else the kept template value, else the key or zero value of a structure something is stored in, else nothing; if all stored leaves are template leaves, so are all of its own |
| `RebuildOrder.RebuildKeepsOrder` | internal/router/hydrate.go:12-56 | every list of the rebuilt device has the template entries it keeps in template order (all for an empty map, the stored ones of an outermost list, none of a nested one), then the other stored keys in the order the paths first mention them |
| `RebuildOrder.OrderKeptIff` | internal/router/hydrate.go:12-56 | the stored template entries of a list are still in template order if and only if the list is inside no other list or the paths mention them in that order |
| `RebuildOrder.FirstMetHas` | internal/router/hydrate.go:46-54 | the first-mentioned keys are those some path goes through, each once |
| `FromValues.DeviceFromValues` | internal/router/hydrate.go:31-56 | the same of the method on the stored text: it fails on unparsable text exactly, succeeds otherwise if and only if the model takes every path with its value, and on every map of strictly spelled storable leaves gives that device, its lists in the order of RebuildOrder.RebuildKeepsOrder with the paths in text order |
| `NestedLists.NestedTemplateLost` | internal/router/hydrate.go:105-185 | inside a list within a list an unstored leaf does not depend on its template value |
| `NestedLists.NestedListOrder` | internal/router/hydrate.go:105-185 | nor do its entries keep the template order: they come as the paths first mention them |
| `NestedLists.RebuildNested` | internal/router/hydrate.go:31-56 | the rebuild of a concrete content: two nested entries change places and a template value is replaced by the zero value |
| `WalkLeaves.WalkVisitsEveryLeafOnce` | internal/router/reflect.go:386-445 | the walk of a device visits every leaf it holds, each exactly once, with its address and value |
| `SeedRebuild.SeedHydratable` | internal/router/router.go:640-661 | the leaves a walk yields can all be stored back, if their paths can be spelled |
| `SeedRebuild.SeedRebuildRoundTrip` | internal/router/hydrate.go:12-56 | walking a device, pruning it by the recorded entries and assigning its leaves back in any order succeeds and gives a device with the same leaves and the same list entries |
| `Framing.ChunkStart` | internal/netconf/framing.go:123-137 | never reads past the input and consumes at least one byte when it succeeds |
| `FramingLaws.EomAccepts` | internal/netconf/framing.go:73-88 | the reader returns m exactly when the first delimiter on the stream follows m and both fit the limit |
| `FramingLaws.FirstDelimiter` | internal/netconf/framing.go:73-88 | the first delimiter after a written message is its own exactly when the message holds no delimiter and does not end in the delimiter's first half |
| `FramingLaws.ChunksRead` | internal/netconf/framing.go:96-118 | any division of a message into chunks, with or without leading line feeds and in any hexadecimal spelling, reads as the concatenation |
| `FramingLaws.ChunkedAccepts` | internal/netconf/framing.go:96-177 | the chunked reader returns m exactly when m fits the limit and the stream starts with chunks of m and the end marker |
| `FramingLaws.HexRoundTrip` | internal/netconf/framing.go:172-176 | the printed chunk size reads back as the size |
| `DecimalPeer.PeerReadsSizeIff` | internal/netconf/framing.go:230-248 | a peer with the decimal sizes of section 4.2 of RFC 6242 reads a size written here as that size if and only if it is below ten |
| `DecimalPeer.PeerSizeIsReadIff` | internal/netconf/framing.go:139-177 | a size such a peer writes is read here as that size if and only if it is below ten |
| `DecimalPeer.PeerMisreads` | internal/netconf/framing.go:230-248 | sixteen octets are announced as ten, and ten octets in a line the peer cannot read |
| `FramingLaws.FrameRoundTrip` | internal/netconf/framing.go:230-248 | a written message reads back, leaving the stream just behind it, if and only if the framing can carry it: 16 MiB for chunked, delimiter-free and below the limit for end-of-message |
| `FramingLaws.StreamRoundTrip` | internal/netconf/framing.go:73-248 | a sequence of messages, with mode changes in between, is read message for message with nothing left over if and only if the framing of its time can carry each of them |
| `FramingLaws.ReadsAreBounded` | internal/netconf/framing.go:73-118 | no read returns more than 16 MiB, whatever the peer sends |
| `FramingLaws.ChunkedIsWritten` | internal/netconf/framing.go:228-249 | a chunked message is written as one chunk with every line feed of RFC 6242 and a size without leading zeros, zero only for the empty message |
| `ChunkErrors.ChunkedOutcome` | internal/netconf/framing.go:96-118 | every input is whole chunks followed by what ends the reading: the end marker, no header, a size above what is left of the limit, or more announced than there is; each with its own outcome |
| `ChunkErrors.HeadIs` | internal/netconf/framing.go:123-177 | a header is read by the position of its line feed: at most eight characters, hexadecimal, or the end marker; otherwise end of stream or malformed |
| `ChunkErrors.HeadRefuses` | internal/netconf/framing.go:123-137 | a stream that does not begin with a header is at its end if it is empty or a line feed, and malformed otherwise |
| `ChunkErrors.CutIsEof` | internal/netconf/framing.go:96-177 | a message cut short at any byte is told as the end of the stream, never as malformed or too big |
| `ChunkErrors.HexValueIff` | internal/netconf/framing.go:141-177 | a size is a non-empty text of hexadecimal digits in either case |
| `ChunkErrors.HexByPosition` | internal/netconf/framing.go:141-177 | and it reads by position in base 16 |
| `FramedStream.MessageReader.ReadEom` | internal/netconf/framing.go:73-88 | the byte loop returns and leaves what the specification says, error for error |
| `FramedStream.MessageReader.ExpectChunkStart` | internal/netconf/framing.go:123-137 | the same for the optional line feed and the number sign |
| `FramedStream.MessageReader.ReadChunkSize` | internal/netconf/framing.go:141-177 | the same for the size line and the end marker |
| `FramedStream.MessageReader.ReadChunked` | internal/netconf/framing.go:96-118 | the same for a chunked message, with the limit checked before each chunk is read |
| `FramedStream.MessageReader.ReadMessage` | internal/netconf/framing.go:65-70 | reads one message in the current mode |
| `FramedStream.MessageWriter.WriteMessage` | internal/netconf/framing.go:230-248 | appends exactly the frame of the message in the current mode |
| `FramedStream.MessageReader.ReadEach` | internal/netconf/framing.go:57-70 | a session of reads, each in the mode agreed for it, is the specified one, up to its first failure |
| `FramedStream.Exchange` | internal/netconf/framing.go:57-248 | from writer to reader every message arrives and nothing else if and only if the framing of its time can carry each of them |
| `Oid.CompareOidIsOrder` | internal/router/oid.go:361-390 | on numeric identifiers the comparison is the lexicographic order of their numbers, and antisymmetric |
| `Oid.CompareOidTransitive` | internal/router/oid.go:361-390 | that order is transitive, with equality only through equality |
| `Oid.PrecedesTotal` | internal/router/oid.go:361-390 | the order of number sequences is total, irreflexive and asymmetric |
| `Oid.CanonicalEqual` | internal/router/oid.go:361-390 | identifiers without leading zeros, signs or dots compare equal only if they are the same text |
| `Oid.OrdersIffCoherent` | internal/router/oid.go:361-390 | the comparison is transitive on a set of components if and only if no component that is not a number stands, as text, between two numbers that are in the other order as numbers |
| `Oid.CoherentOrders` | internal/router/oid.go:361-390 | identifiers made of such components are ordered, numeric or not |
| `Oid.MixedIsNoOrder` | internal/router/oid.go:361-390 | identifiers that are not ordered: 9, 10 and 1a go round in a circle |
| `OidText.AtoiIff` | internal/router/oid.go:361-390 | a component is a number exactly when it is a sign, zeros and the digits of an integer of 64 bits |
| `OidText.DottedOrder` | internal/router/oid.go:361-390 | identifiers written out as numbers with dots compare as the sequences of their numbers, whether they begin with a dot or not |
| `SnmpIndex.NewPduIndex` | internal/snmp/oid.go:21-34 | the index holds the same bindings in order, strictly so if no two identifiers are equal, and the map finds for each identifier its last binding |
| `SnmpIndex.Search` | internal/snmp/oid.go:48-57 | the binary search finds the position of the first binding above the identifier |
| `SnmpIndex.Next` | internal/snmp/oid.go:48-57 | the binding at that position, or none |
| `SnmpIndex.NextIsLeastAbove` | internal/snmp/oid.go:48-57 | the successor is the least binding above the identifier, and there is none exactly when no binding is above |
| `SnmpWalk.GetNext` | internal/snmp/agent.go:211-227 | each variable is the successor of its name, or the end marker under that name without its leading dot |
| `SnmpWalk.Repetition` | internal/snmp/agent.go:266-284 | one round over the cursor arrays yields one row and moves every cursor to its successor, ended ones staying marked |
| `SnmpWalk.GetBulk` | internal/snmp/agent.go:232-286 | one successor for each non-repeater, then rows of successors up to the limits and none after the first row in which every repeater has no successor left |
| `SnmpWalk.AnswerBulk` | internal/snmp/agent.go:185-286 | from unsorted bindings, equal identifiers included, to the reply: the rows of successors in the sorted index with the first binding of each identifier |
| `SnmpWalk.RowsAt` | internal/snmp/agent.go:266-284 | entry (k, i) of the rows is the (k+1)-fold successor of repeater i, or the end marker |
| `SnmpWalk.EntryInIndex` | internal/snmp/agent.go:266-284 | repetition k of a repeater holds the binding k places after the first one above its name, or the end marker under the last name it reached |
| `SnmpWalk.NthSuccessor` | internal/snmp/oid.go:48-57 | the (n+1)-fold successor is the binding n places after the first one above the start |
| `SnmpWalk.WalkMeetsEachOnce` | internal/snmp/agent.go:211-227 | a walk meets exactly the bindings above its start, each at one step only |
| `SnmpWalk.WalkClimbsAndEnds` | internal/snmp/agent.go:211-227 | each step climbs strictly, and the walk ends after as many steps as there are bindings above |
| `SnmpWalk.FirstsStrict` | internal/snmp/oid.go:48-57 | the first bindings of runs of equal identifiers are strictly ordered, so the walk laws hold of them |
| `SnmpWalk.WalkMeetsFirsts` | internal/snmp/oid.go:48-57 | with equal identifiers a walk meets the first binding of each and goes on to the next identifier |
| `AlarmLaws.ClockIsWhatItHeard` | internal/sync/ptp.go:148-182 | in every run, commands included, the clock is what the inputs it heard make of its first state |
| `AlarmLaws.ClockFollowsSources` | internal/sync/ptp.go:77-182 | in every run, any commands included: unless reset, a clock that began synchronized is locked exactly when the source was last heard to return, or never heard of and the clock began locked; one that did not stays unsynchronized until a calibration completes |
| `AlarmLaws.ClockFollowsAlarms` | internal/sync/ptp.go:148-182 | in every run, from any synchronized clock and whatever the bus dropped, the clock is locked exactly when the last link-down alarm delivered to it was not a raise |
| `AlarmLaws.AlarmsTellTheState` | internal/radio/alarms.go:21-90 | in every run, from any start, with any number of links and any commands, the link-down alarms of each link alternate, the first says that it changed and the last whether it is down |
| `AlarmLaws.DomainsAgree` | internal/radio/manager.go:304-320 | no alarm lost, any number of links: the queued alarms of each link alternate, and once none is queued "locked exactly when no link is down" holds if and only if no link is down behind a last alarm that is a clear |
| `AlarmLaws.AgreementIff` | internal/radio/manager.go:304-320 | alarms lost or not: once none is queued, "locked exactly when no link is down" holds if and only if the last alarm that found room is a raise exactly when some link is down |
| `AlarmLaws.OneLinkAgrees` | internal/radio/manager.go:304-320 | one link that begins in agreement with the clock: they agree if and only if the last alarm that found room says the same as the last one published, so in every run that loses none |
| `AlarmLaws.RoomyIsLossless` | internal/event/bus.go:47-66 | room for two events before each measurement is enough to lose no alarm |
| `AlarmRuns.TwoLinksDisagree` | internal/sync/ptp.go:148-165 | a run of two links, at any capacity from three, that loses nothing and ends locked with a link down |
| `AlarmRuns.LostRaiseDisagrees` | internal/event/bus.go:58-65 | for every capacity and all thresholds, a run of one link whose raise finds the queue full: the clock stays locked under a link that is down |
| `AlarmRuns.LostClearDisagrees` | internal/event/bus.go:58-65 | for every positive capacity, a run in which another link fills the queue, the clear is lost and the clock stays in holdover with no link down |
| `AlarmLaws.HoldoverAlarmTruthful` | internal/sync/ptp.go:185-248 | in every run, from any clock state and with any commands, the published holdover alarms alternate, the first says that the state changed and the last whether the clock is out of specification |
| `AlarmStates.LevelDecides` | internal/radio/alarms.go:21-38 | in every run a link is down exactly when the last level measured on it that is not between the two thresholds was below the alarm threshold, or none was and it began down |
| `AlarmStates.StepOfLink` | internal/radio/alarms.go:21-46 | one action seen from one link, with the hysteresis of the level and of the fade margin |
| `AlarmStates.SteadyIff` | internal/radio/alarms.go:18-38 | a steady level never makes a link go down and up by turns if and only if the alarm threshold is not above the clear threshold |
| `AlarmStates.OneAlarmAtATime` | internal/radio/alarms.go:49-90 | in every run, after each published message at most one of the two alarms of a link stands, and after all of them the one that tells its state |
| `AlarmStates.OutOfSpecIff` | internal/sync/ptp.go:75-108 | a synchronized clock is out of specification exactly when its holdover expired while the source was lost and the source has not returned since |
| `AlarmStates.AcquiresIff` | internal/sync/ptp.go:75-108 | a clock that is not synchronized acquires exactly while a source was last detected, not lost |
| `AlarmStates.ResetAndCalibration` | internal/sync/ptp.go:75-108 | a reset frees the clock; a completed calibration locks one that acquires and moves no other |
| `AlarmStates.StepOfClock` | internal/sync/ptp.go:75-248 | the expiry of a holdover, the tick of a master clock and a reset, with the messages of the expiry |
| `Domains.Domains.Publish` | internal/event/bus.go:47-66 | queues the event, or drops it when the subscriber's buffer is full |
| `Domains.Domains.Report` | internal/radio/alarms.go:51-90 | publishes the clear of the state left and the raise of the state entered, in that order |
| `Domains.Domains.EvaluateLink` | internal/radio/manager.go:304-320 | one measurement moves the link as the thresholds say and reports only a change |
| `Domains.Domains.Transition` | internal/sync/ptp.go:185-248 | moves the clock, then publishes the transition and the holdover alarm it raises or clears |
| `Domains.Domains.HandleLocked` | internal/sync/ptp.go:168-182 | an undefined pair of state and event changes nothing |
| `Domains.Domains.Receive` | internal/sync/ptp.go:148-165 | takes the oldest event and acts on link-down alarms only |
| `Domains.Domains.ExpireHoldover` | internal/sync/manager.go:210-219 | expires the holdover only while it is in specification |
| `Domains.Domains.ReconcilePtp` | internal/sync/manager.go:273-283 | a free-running master clock locks, nothing else moves |
| `Storm.RetainedIsWindow` | internal/l2/storm.go:115-134 | dropping old samples loses nothing: what is retained is the end of the history from the first sample no older than the window on |
| `Storm.RateIsOffered` | internal/l2/storm.go:115-134 | the computed rate is the load offered at the times of the window, modulo 2^32 |
| `Storm.QuietPortAdmits` | internal/l2/storm.go:61-74 | after a pause longer than the window an injection is admitted up to the threshold |
| `Storm.AdmitsShareIff` | internal/l2/storm.go:61-74 | an injection is admitted exactly up to what the threshold leaves of its window if and only if the load is below 2^32, or nothing is injected, or the wrapped loads with and without it still look too high; otherwise more gets through, and never less |
| `Storm.PolicedFillsIff` | internal/l2/storm.go:61-74 | every injection of a run is so admitted if and only if no wrap does harm |
| `Storm.NeverAboveThreshold` | internal/l2/storm.go:61-74 | in every run in which no wrap does harm, no interval as long as the window sees more accepted than the threshold |
| `Storm.WrappedLoadPasses` | internal/l2/storm.go:115-134 | a load past 2^32 in one window is counted as a small one and a whole injection passes far above the threshold |
| `StormControl.Policer.RecordStorm` | internal/l2/storm.go:115-134 | every sample before the cutoff is dropped, every other kept as often as it was there, the new one added, and their uint32 total returned |
| `StormControl.AlarmIff` | internal/l2/storm.go:136-167 | the alarm stands exactly while the load of the last window, as counted, is above the threshold |
| `StormControl.Policer.Divide` | internal/l2/storm.go:63-74 | accepted and discarded together are the injection |
| `StormControl.Policer.Inject` | internal/l2/storm.go:42-102 | zero packets and too many change nothing; otherwise the injection is recorded, accepted and discarded add up to it, and the alarm tells whether the rate is above the threshold |
| `Atpc.StepInRange` | internal/radio/atpc.go:22-25 | the adjusted power is within its configured range |
| `Atpc.TickApproaches` | internal/radio/manager.go:263-292 | one evaluation moves the power toward the optimum and never past it, even when the measured level is saturated |
| `Atpc.TicksApproach` | internal/radio/manager.go:263-292 | over any number of evaluations the power stays in range and closes in on the optimum from one side |
| `Atpc.ConvergesLinearly` | internal/radio/atpc.go:22-25 | unsaturated, the distance to the optimum after n evaluations is exactly the larger of zero and the first distance less n times the step |
| `Atpc.SaturatedTick` | internal/radio/linkbudget.go:48-50 | saturated, an evaluation moves by the step or the error still visible, if less, or reaches the optimum |
| `Atpc.StuckIff` | internal/radio/linkbudget.go:48-50 | away from the optimum the loop stands still if and only if the level is saturated at the target itself |
| `Atpc.ReachesOptimumIff` | internal/radio/manager.go:263-292 | the loop reaches its optimum after some number of evaluations if and only if it does not start out stuck |

## Left out

- SSH, TCP, UDP, HTTP and gRPC transports, the XML and JSON codecs and the startup file format: saving and loading are parameters that succeed or fail.
- `Device.Validate` and the range checks of the model: validation is an arbitrary predicate on the proposed content.
- The rendering and parsing of scalar values, and the conversion of edit text: parameters, with the laws each theorem needs of them named in its preconditions.
- The content of the SNMP object index and the value types of bindings: the cache theorem holds of any index function, and the walk of any numeric bindings.
- Spanning tree, VLAN and MAC tables, LLDP, SyncE source selection, ESMC, ACM profile selection, gNMI, RESTCONF and traps: they would mostly add single-branch members.
- Cancelled contexts, logging, metrics and event timestamps.
- Hydrate.AssignReads: a value is stored as given where `assignLeaf` also converts between numeric types; the device is rebuilt on values; that the source writes through references into one shared structure, and the aliasing this could bring, is not modelled.
- Prune.PruneReads: lists are identified by the sequence of names leading to them, where the source joins the names with slashes.
- FromValues.DeviceFromValues: of maps with a path that is parsable but not strictly spelled (a predicate on a container, a key that does not survive parsing) it says when the rebuild succeeds, not what device it gives.
- WalkLeaves.WalkVisitsEveryLeafOnce: does not carry the read-only flag of the walk, which the seed of the flat map does not use.
- Reader.Read: the comparison of two keys, numeric or textual, is a parameter.
- SnmpIndex.NewPduIndex: the sorting algorithm of the Go library is replaced by an insertion sort with the same contract; identifiers must be numeric, as the decoder delivers them.
- AlarmLaws.ClockFollowsAlarms: runs in which a command feeds the clock a loss, a return or a reset are excluded; ClockFollowsSources says what the clock is then. Failed state writes are not modelled.
- AlarmLaws.RoomyIsLossless: the events of other publishers on the bus are not modelled and the two events of a report are published in one step, so room for two is not enough when others publish in between.
- Domains.Domains.ExpireHoldover: the holdover timer is left out; an expiry may come at any moment, which includes every timed one.
- StormControl.Policer.Inject: one object per port stands for the per-port maps; the octet and egress counters are left out.
- Atpc.ConvergesLinearly: exact reals; floating-point rounding and the logarithm in the path loss, which is part of the constant gain, are left out.
- FramedStream.MessageReader.ReadMessage: bytes are characters, and a read error of the transport is the end of the stream; `detectFraming` is left out.
- FramedStream.MessageWriter.WriteMessage: one writer at a time; the mutex that serializes writers is not modelled.
- BindingCache.Linearizable: a participant's lock-protected sections are its atomic steps; the memory model of the machine is not modelled.
