# A verified model of the open-gnmi server

This project models the stateful middle of the gNMI server in `server/` and proves what it keeps:

- **Set transactions** (`DataTree`, `SetLog`, `SetModel`, `SetProofs`, `SetRequests`, `SetOutcome`, `SetUndo`,
  `SetErrors`, `SetServer`): the operation log, the callbacks into the subsystem, the rollback pass and the restore pass. Section 3.4.3
  of the gNMI specification asks for all or nothing. Both passes replay the log forwards; the proofs say exactly when that
  undoes a request.
- **Event dispatch** (`EventModel`, `EventControl`, `PathMeaning`): the index of receiver groups, the start/receive/complete
  protocol, and what path strings and subscribed paths stand for on the elements of the paths.
- **Telemetry** (`TelemetryModel`, `Replica`, `Joining`, `Sampling`, `SubscriberClass`, `SetReplica`): batches, messages
  and the client's mirror over whole runs, for ON_CHANGE and SAMPLE subscriptions (sections 3.5.1.5.2 and 3.5.2.3 of the
  gNMI specification).
- **Sync index** (`SyncModel`, `SyncServer`): which nodes need a sync, and how often one may be requested.
- **Aliases** (`AliasModel`, `Aliases`): the two alias tables of a session (section 2.4.2 of the gNMI specification).
- **Subscriptions** (`SubKey`, `Session`): subscription keys, merging, stream configuration and the life of a subscriber.

`dafny verify dfyconfig.toml` checks the whole project. Each class follows the fields and loops of the Go code, and its
methods are proved equal to functions over values; the lemmas are about those functions. Go's one `Server` struct appears
as `SetServer.Server`, `SyncServer.Server`, `SubscriberClass.TelemetryServer` and `Session.Hub`, by concern.

## Where the code falls short of its purpose

Each of these is a proved exact condition or a proved counterexample, on the code as it is.

- The restore and rollback passes run forwards. A request that has to create no parents, and whose changes the tree takes
  back, is all or nothing, on every server, tree, value and failure, if and only if no path of it is, or is an ancestor of,
  another (`SetRequests.AtomicExactly`); under the same condition a failed one is undone in the subsystem
  (`SetUndo.UndoneExactly`). Run backwards the pass would undo every log (`SetLog.BackwardRestores`). A refused request
  that replaces one node twice leaves the first value behind (`SetProofs.DoubleReplaceKeepsFirst`).
- Ancestors created for a new node stay behind, as the TODO in `README.md:17` of the repository says: over independent
  paths every request leaves a tree as it was if and only if each path or its parent is in it
  (`SetRequests.AtomicFromExactly`).
- What the tree refuses to take back is passed over in silence, and stays (`SetLog.PassRestoresExactly`,
  `SetRequests.RefusedRestoreSticks`).
- With a SetCallback but no SetTransaction the rollback pass never runs: the tree goes back and the subsystem does not
  (`SetUndo.NoTransactionExactly`, `SetUndo.NoTransactionSplits`).
- An accepted Set or Load raises no event, and a deletion raises its events before the node is removed, which may then be
  refused, or have no effect because the node is the root. A replica stays right after every step of a run if and only if
  no Set changes what it shows, and no deletion that removes nothing reports a node it shows, the root itself apart
  (`Replica.ConvergedThroughoutExactly`; `Replica.CommitDiverges` and `Replica.KeptDeleteDiverges` are inputs that break
  it). The next sample repairs everything but an unreported removal and what a suppressed tick overlooks
  (`Sampling.TickWouldDoExactly`). The sync index suffers in the same way (`SyncModel.KeptDeleteAgreesExactly`,
  `SyncModel.KeptDeleteDisagrees`, `SyncModel.ExchangeDisagrees`).
- Over the runs without such steps, replicas diverge for exactly two more reasons: a subscription with a prefix misses
  deletions, and a path merged into an existing subscriber is not registered for events (`Replica.ConvergesExactly`,
  `Sampling.CurrentExactly`). When the path is merged, before or during the run, makes no difference
  (`Joining.LiveConvergesExactly`).
- A dispatch that fails half-way leaves brackets open, and a later one goes on in them under another event id. This
  happens exactly when a dispatch fails after delivering something and a later one delivers something or succeeds
  (`EventModel.OneIdExactly`, `EventModel.FailureMixesIds`).
- A sync path registered with list keys misses nodes of its own schema (`SyncModel.RegistersAgreeExactly`). A failed
  `UnregisterSync` leaves the index too large exactly when the paths before the one that failed used up all registrations
  of some node (`SyncModel.FailedRemovalExactly`, `SyncModel.FailedRemovalDisagrees`).
- Server aliases are added without the collision checks that client aliases get; exactly then the tables stop being
  one-to-one, or depend on map order (`AliasModel.HistoryOneToOneExactly`, `AliasModel.CollisionBreaks`,
  `AliasModel.OrderIrrelevantExactly`).

## Assumptions

The libraries behind the server are represented by these assumptions.

- A data tree is a map from absolute paths to values; the order of children is not part of it. Grafting creates missing
  ancestors as containers. Replacing a node by a nil node removes it. The path of a new node is the path it was put at.
- A lookup lists the matching nodes in some fixed order (`Env.order`). Replacing or updating through a path with wildcards
  that matches nothing is an error. The root is never refused as the target of a removal; having no parent, it stays in
  place with all its nodes.
- Edits of the tree, those of the restore pass and the removals of `Delete` included, may be refused for any reason
  (`treeFails`), and then change nothing. A subsystem may refuse any call, depending on everything called so far
  (`Env.fails`). A subsystem does not write the tree during a transaction.
- The trie of receivers returns every stored string that is a string prefix of the argument. The schema path of a node is
  its path without list keys, and two nodes have one schema when their schema paths are equal. A path without wildcards
  is registered at its own path string.
- In path strings names contain no slash and no opening bracket, and keys are bracketed with no bracket closing right
  before a slash.
- Merging and writing report the complete difference, and looking up `...` below a node yields it and its descendants. A
  merge that would not leave a well-formed tree is refused. A fresh tree of changes is a bare root. What a Set or Load
  leaves is a well-formed tree, where a replica is concerned. The nodes a data change reports are valid, so its dispatch
  does not fail; dispatches that do fail are the subject of `EventModel`.
- One tick and the message it sends are one step; channels are unbounded queues; node names are not empty.

## Model

| member | source | states |
|---|---|---|
| `DataTree.PutsCommute` | server/set.go:141-157 | replacements (removals included) at independent paths give the same tree in either order |
| `DataTree.GraftIsPut` | server/set.go:324-333 | an update equals a replacement by the subtree it leaves behind, which is what its log entry records |
| `DataTree.FoundAreIndependent` | server/set.go:198-224 | two different nodes one request path selects never overlap |
| `DataTree.FindExactly` | server/set.go:198-199 | an exact element finds itself, a list without keys all its entries, a star every element of its level |
| `SetLog.IndependentLogRestores` | server/set.go:137-163 | for a log over independent paths, the forward restore pass returns the starting tree if and only if no entry created a node below a missing parent |
| `SetLog.AlwaysRestoresIffIndependent` | server/set.go:137-163 | the forward pass undoes every consistent log over given paths, from every tree and with every value, if and only if the paths are pairwise independent |
| `SetLog.OverlapNotRestored` | server/set.go:137-163 | for any two overlapping paths there is a consistent log over them that the pass does not undo |
| `SetLog.ForwardIsBackward` | server/set.go:141-157 | over independent paths the forward pass gives the same tree as a pass from the last entry to the first |
| `SetLog.BackwardRestores` | server/set.go:141-157 | a pass from the last entry to the first would undo every log whose edits had parents, overlapping or not |
| `SetLog.RestoredAt` | server/set.go:137-163 | what is at each path after the pass over an independent log: the original value, or a left-over container above a created node |
| `SetLog.PassRestoresExactly` | server/set.go:141-157 | with edits the tree may refuse, the pass over an independent log returns the starting tree if and only if no entry created a node below a missing parent and every refused entry had changed nothing |
| `SetProofs.EditNodeTracks` | server/set.go:199-224 | editing one node keeps the invariant that the log explains the tree, every saved subtree is the one that was there, and every entry was called back exactly once |
| `SetProofs.BodyTracks` | server/server.go:534-560 | the invariant holds for every request at every point of failure |
| `SetProofs.SetRevertsExactly` | server/server.go:561-567 | a failed or not server-updated Set over independent paths leaves the tree it found if and only if it created no node below a missing parent and the tree took back what had changed |
| `SetProofs.SetIsAtomic` | server/server.go:524-573 | wherever and why ever a request fails whose paths cannot overlap and whose created nodes have parents, the tree is the one before it, if and only if the tree took back what had changed |
| `SetProofs.LoadIsAtomic` | server/server.go:216-231 | a failed or not server-updated Load leaves the tree it found, without any condition |
| `SetProofs.DoubleReplaceKeepsFirst` | server/set.go:141-157 | a request that replaces one node twice and is refused by SetEnd leaves the first written value, or, where the tree refuses that, the original or the last one |
| `SetRequests.AtomicExactly` | server/server.go:524-573 | every request with one operation at each of given paths, whatever its values, the server, the failure and the tree, as long as what it creates has a parent there and what it changed is taken back, is all or nothing if and only if the paths are pairwise independent; the same for requests that only replace |
| `SetRequests.AtomicFromExactly` | README.md:17-17 | over independent paths every request that replaces them and has to revert leaves a given tree as it was if and only if each path or its parent is in the tree |
| `SetRequests.RefusedRestoreSticks` | server/set.go:148-156 | a single replacement that the tree refuses to take back stays after the request has failed |
| `SetRequests.OverlapNotAtomic` | server/set.go:137-163 | for any two overlapping paths there are a server, a tree and values for which a request refused at its end keeps a node it made |
| `SetOutcome.TransactCalls` | server/set.go:100-134 | every Set or Load calls start, its callbacks and end with one number, and after a failure start, one swapped callback per entry in log order, the failed one included, and end with the same number |
| `SetOutcome.RunIsBracketed` | server/server.go:216-231 | over any run of transactions the calls are those brackets one after the other, never nested |
| `SetOutcome.RunNumbers` | server/set.go:101-104 | after n transactions the number has advanced by n, modulo the size of a uint |
| `SetOutcome.NumbersAreFresh` | server/set.go:101-104 | over a run no two transactions share a number within one turn of the counter, and the numbers increase until it wraps |
| `SetOutcome.LogUndoneInStore` | server/set.go:166-182 | the callbacks of a log, forwards and then swapped, leave a store that takes over every wanted value where it was |
| `SetOutcome.SubsystemIsUndone` | server/server.go:561-567 | a failed safe request leaves such a subsystem where it was, whichever call failed |
| `SetUndo.UndoneExactly` | server/set.go:166-182 | every failed request with one operation at each of given paths, on every server with transactions and callbacks, leaves such a subsystem where it was if and only if the paths are pairwise independent |
| `SetUndo.OverlapNotUndone` | server/set.go:166-182 | for any two overlapping paths there are a server, a tree and values for which the subsystem keeps a node of a failed request |
| `SetUndo.NoTransactionExactly` | server/set.go:166-169 | without a SetTransaction the subsystem keeps what a request had written before it failed, so it is where it was if and only if nothing had changed |
| `SetUndo.NoTransactionSplits` | server/set.go:166-169 | a single replacement that its callback refuses leaves the old value in the tree and the new one in the subsystem |
| `SetOutcome.SetResults` | server/server.go:527-560 | one result per operation in request order: a success prefix, at most one failure, then aborts; all aborted if and only if a configured SetTransaction refuses the first call, the SetStart with the next number |
| `SetErrors.RefusedStart` | server/server.go:534-567 | when the subsystem refuses the SetStart, a Set or Load fails with its error, every operation is aborted, no SetCallback is made, the calls are the two brackets alone, and the tree is the one before |
| `SetErrors.AbortedExactly` | server/server.go:534-537 | of a request with operations all are aborted if and only if a configured SetTransaction refuses that call |
| `SetErrors.ErrorExactly` | server/set.go:100-134 | the error of a Set or Load is that of the refused start, else that of its operations, else that of the end the subsystem refuses after exactly these calls, else none |
| `SetErrors.FailedResult` | server/server.go:534-560 | an operation that failed gives the request its error |
| `SetErrors.WrongIsRefused` | server/set.go:189-341 | an operation on an unknown or read-only path, with a wildcard that matches nothing, or with a value that cannot be built is never accepted, whatever the tree and the subsystem answer |
| `SetErrors.OperationExactly` | server/set.go:189-341 | where these refuse nothing, that condition is exact, with the error for each case |
| `SetErrors.RefusalExactly` | server/set.go:189-386 | a refusal by the tree leaves tree and log alone; one by the subsystem comes after the edit, which is then in the log |
| `SetErrors.LoadExactly` | server/set.go:345-367 | startup data are accepted if and only if they can be read and none of the three calls is refused; then the root is the tree the data stand for |
| `SetOutcome.EditNodesEffect` | server/set.go:199-224 | working through the found nodes one by one has the effect of changing all of them at once |
| `SetOutcome.SetCommits` | server/server.go:535-560 | an accepted request that the server applies is the left fold of its operations' declarative effects |
| `SetServer.Server.SetStart` | server/set.go:100-116 | new number and empty log unless rolling back; SetStart is called with them |
| `SetServer.Server.SetEnd` | server/set.go:119-134 | SetEnd is called; an earlier error wins over its own |
| `SetServer.Server.SetDone` | server/set.go:137-163 | the loop restores exactly the forward fold of the log, passing over what the tree refuses, and the log is dropped |
| `SetServer.Server.ExecSetCallback` | server/set.go:369-386 | exactly one callback, swapped in a rollback, none for an unexecuted entry or without a callback; the entry is marked executed |
| `SetServer.Server.SetRollback` | server/set.go:166-182 | the loop calls back the inverses of the executed entries in log order and changes nothing else |
| `SetServer.Server.SetDelete` | server/set.go:189-226 | the loop over found nodes ends in exactly the modelled state and error |
| `SetServer.Server.SetReplace` | server/set.go:232-286 | the loop over found nodes, or the one node to create, ends in exactly the modelled state and error |
| `SetServer.Server.SetUpdate` | server/set.go:289-341 | the same for merging into the found nodes |
| `SetServer.Server.SetLoad` | server/set.go:345-367 | the root changes only after the callback accepted the new tree; JSON data are read, YAML is refused, and an unknown encoding loads a fresh root |
| `SetServer.Server.Load` | server/server.go:216-231 | a Load is one transaction of the model |
| `SetServer.Server.Set` | server/server.go:524-573 | the three loops and the closing lines are one transaction of the model over deletes, replaces, updates |
| `EventModel.HearEventFollows` | server/event.go:124-143 | every dispatch, also a failing one, keeps each receiver's calls a prefix of (Start Receive+ Complete)* with the open bracket exactly the ready ones; a successful one uses one id and leaves nobody ready |
| `EventModel.RunFollows` | server/event.go:124-143 | the same over whole runs of dispatches |
| `EventModel.ProtocolExactly` | server/event.go:124-143 | the automaton of the protocol accepts exactly the prefixes of (Start Receive+ Complete)* with one id per bracket, and tells how far the last bracket is |
| `EventModel.IdsAside` | server/event.go:124-143 | its loose form accepts what becomes such a prefix when the ids are taken away |
| `EventModel.OneIdExactly` | server/event.go:124-143 | over any run every bracket carries one event id if and only if no dispatch that failed after delivering something is followed by one that delivers something or succeeds |
| `EventModel.FailureMixesIds` | server/event.go:128-136 | the smallest such run: a heard node and an invalid one, and then the heard node again |
| `EventModel.HearEventExactly` | server/event.go:167-203 | a successful dispatch gives an idle receiver one bracket holding exactly the delivered events in create, replace, delete order, or nothing |
| `EventModel.DeliveredExactly` | server/event.go:175-200 | an event is delivered once per registered string that is a prefix of its path, and for list data once more per one that is a prefix of its schema path |
| `EventModel.KindsInOrder` | server/event.go:128-139 | creations are delivered before replacements and these before deletions |
| `EventModel.NodesInOrder` | server/event.go:167-203 | the events of one kind come in the order of their nodes |
| `PathMeaning.RenderExample` | server/event.go:175-183 | the path string of the state of an interface, list keys included |
| `PathMeaning.RenderPrefixExactly` | server/event.go:175-183 | one path string is a prefix of another if and only if the paths agree up to the last element of the first, whose text, name and keys, is a prefix of the text there |
| `PathMeaning.RenderInjective` | server/event.go:175-183 | different paths have different strings |
| `PathMeaning.UnproperAmbiguous` | server/event.go:175-183 | which fails for keys that close a bracket before a slash |
| `PathMeaning.HeardExactly` | server/event.go:175-200 | a receiver at one path hears exactly the nodes whose path or schema path goes on where its own ends |
| `PathMeaning.EntryHeardExactly` | server/event.go:175-200 | a receiver at a list entry hears exactly the nodes at or below an entry of that list whose keys begin with its own |
| `PathMeaning.OwnEntryHeardExactly` | server/event.go:175-200 | of keys no longer than its own it hears exactly its own entry and what is below |
| `PathMeaning.SiblingExample` | server/event.go:175-200 | of two entries of one list the receiver at the one hears its events once and those of the other never, while a receiver at the list hears them twice |
| `EventControl.EventCtrl.Register` | server/event.go:85-100 | adds exactly the receiver's strings to its own, changes nobody else, keeps the index free of empty groups |
| `EventControl.EventCtrl.Unregister` | server/event.go:104-121 | the receiver has no string left and is not ready, nobody else is affected, emptied groups are gone |
| `EventControl.EventCtrl.SetReady` | server/event.go:167-203 | in whatever order groups and receivers come, each receiver hears exactly its deliveries up to the first invalid node |
| `EventControl.EventCtrl.SetEvent` | server/event.go:124-143 | one dispatch under a fresh id, receiver by receiver; nobody stays ready when it succeeds |
| `TelemetryModel.EventsAreConserved` | server/subscribe.go:216-275 | over any run the writes and erasures received for a path equal the sums of its counts over all queued and pending batches |
| `TelemetryModel.ReceiveAllFaithful` | server/subscribe.go:244-275 | a batch holds only data of the tree, all of it below every written path, and exactly the erased paths |
| `TelemetryModel.ReceiveExactly` | server/subscribe.go:234-275 | a creation or replacement adds one to the updates of its path, a replacement or deletion one to its deletions, and nothing else; only ON_CHANGE copies data, and only what was written |
| `PathMeaning.OpenPathSelects` | server/subscribe.go:509-522 | a subscribed path without list keys selects exactly the nodes with its names in its order, in whatever list entries, and what is below |
| `PathMeaning.KeyedPathSelects` | server/subscribe.go:509-522 | one with list keys selects exactly its node and what is below |
| `PathMeaning.SelectsAny` | server/subscribe.go:584-597 | a subscription selects what any of its paths does behind its prefix |
| `PathMeaning.ListExample` | server/subscribe.go:509-522 | the path of a list selects an entry of it |
| `PathMeaning.FirstMessageHolds` | server/subscribe.go:584-609 | the first message for a path has no deletes and holds, with its value in the tree, each node of these and no other |
| `PathMeaning.UpdatesExactly` | server/subscribe.go:557-609 | with or without a prefix, the updates of a message are the selected nodes of its source, if the prefix is there |
| `PathMeaning.DeletesExactly` | server/subscribe.go:557-583 | its deletes are the recorded ones from the prefix on, or, without the prefix in the source, all of them put behind the prefix |
| `PathMeaning.HeartbeatExactly` | server/subscribe.go:359-372 | a heartbeat brings every shown node of the tree up to date and takes nothing away |
| `TelemetryModel.Absorb` | server/subscribe.go:374-399 | a mirror that got ahead of the queue at some paths ends up in the same place after the queue |
| `Replica.StepTracksExactly` | server/subscribe.go:537-609 | a merge, deletion, Set, first message, batch or heartbeat keeps that draining the queue gives what the subscription shows, if and only if it is no Set that changes the shown part and no deletion that is refused or of the root with shown nodes reported |
| `Replica.ConvergedThroughoutExactly` | server/subscribe.go:537-609 | from any converged state of a reliable subscription, the replica is right after every step of a run if and only if every step is quiet in that sense |
| `Replica.CommitDiverges` | server/set.go:137-163 | a Set that creates a subscribed node after the first message is never reported |
| `Replica.KeptDeleteDiverges` | server/data.go:69-93 | a deletion that is refused after its events, or of the root, takes a shown node out of the replica while the tree keeps it |
| `Replica.ConvergesExactly` | server/subscribe.go:537-609 | over all quiet runs the drained mirror of an ON_CHANGE subscription equals what it shows of the tree, if and only if it has no prefix and every path of it is within earshot of its one registered path |
| `Replica.SinglePathConverges` | server/subscribe.go:690-691 | a subscription to one path without prefix converges over every quiet run |
| `Joining.LiveConvergesExactly` | server/subscribe.go:649-668 | a subscription whose paths were merged in at any points of a quiet run converges, if and only if it has no prefix and all its paths are within earshot of the registered one |
| `Replica.PrefixDiverges` | server/subscribe.go:557-571 | with any prefix a deletion can be lost |
| `Replica.UnheardDiverges` | server/subscribe.go:662-667 | a merged path out of earshot of the registered one diverges |
| `Sampling.StepAccountedExactly` | server/subscribe.go:374-399 | between ticks every difference of the mirror is on record in the pending batch; each tick or heartbeat brings it up to date; only a Set can break this, and no refused deletion, exactly when it removes a node without a deletion on record or a suppressed tick would overlook it |
| `Sampling.TickWouldDoExactly` | server/subscribe.go:374-399 | from any such state, a tick would bring the client up to date after every step of a run if and only if no step is a Set of that kind |
| `Sampling.ExchangeAfterTick` | server/subscribe.go:374-399 | right after a tick a Set is harmless if and only if it removes nothing subscribed, and under suppress_redundant if and only if it changes nothing subscribed |
| `Sampling.ExchangeGoesStale` | server/set.go:137-163 | a Set that removes a subscribed node is not noticed by the next tick, suppressed or not |
| `Sampling.SuppressedExactly` | server/subscribe.go:374-382 | after any run a suppressed tick is skipped if and only if no event was delivered since the last tick or heartbeat, and every other tick sends |
| `Sampling.CurrentExactly` | server/subscribe.go:359-399 | after every tick of every harmless run, suppressed ones included, the mirror is up to date, if and only if there is no prefix and every path is heard, whatever suppress_redundant says |
| `SubscriberClass.Subscriber.EventReceive` | server/subscribe.go:234-275 | takes up one event as modelled, in the pending batch or a new one that no queued batch shares |
| `SubscriberClass.Subscriber.EventComplete` | server/subscribe.go:216-231 | queues the pending batch last for ON_CHANGE, nothing otherwise |
| `SubscriberClass.Subscriber.SendOldest` | server/subscribe.go:334-358 | the message of the oldest batch; clearing it leaves every other batch intact |
| `SubscriberClass.Subscriber.Expire` | server/subscribe.go:374-399 | sends unless suppressed and nothing was recorded: from the tree for SAMPLE, for ON_CHANGE with a pending batch from its data; clears only what it sent |
| `SubscriberClass.TelemetryServer.SetEvent` | server/event.go:124-143 | one set of events queues exactly one batch with the delivered events of all three kinds, or none |
| `SubscriberClass.TelemetryServer.Merge` | server/data.go:10-31 | the data changes first, then its events are raised: one merge step of the replica model |
| `SubscriberClass.TelemetryServer.DeleteNode` | server/data.go:69-93 | the events are raised while the data is there, and the removal may be refused after that: one deletion step of the replica model, for the root too, which stays |
| `SubscriberClass.TelemetryServer.Delete` | server/data.go:56-95 | deleting the selected nodes is a run of such steps, one per node, up to the first refused one; exactly the nodes before that and their descendants are gone |
| `SubscriberClass.TelemetryServer.Commit` | server/server.go:524-573 | whatever tree a transaction of the Set model leaves, it is one commit step of the replica model: another tree, and no event |
| `SetReplica.SetTracksExactly` | server/server.go:524-573 | a replica is right after a Set or Load if and only if the transaction leaves the part it shows alone |
| `SetReplica.RevertedSetKeepsTracking` | server/set.go:137-163 | a safe request that fails, or that the system is to write itself, keeps every replica right if the tree takes back what had changed |
| `SyncModel.CreateAgrees` | server/sync.go:86-101 | creation events alone keep the index equal to the nodes whose schema is registered |
| `SyncModel.DeleteAgrees` | server/sync.go:86-101 | deletion events alone keep it so |
| `SyncModel.TouchExactly` | server/sync.go:86-101 | a creation resets the time of its node and a deletion takes it out, exactly if a receiver of its schema is reached; a replacement changes nothing |
| `SyncModel.RegistersAgree` | server/sync.go:111-147 | registering keeps it so, also when it stops at an unknown path |
| `SyncModel.RegistersExactly` | server/sync.go:111-147 | registering succeeds if and only if every path has a schema; it registers the paths before the first that has none, in order, and the index gains exactly the nodes they name, with a zero time |
| `SyncModel.FoundExactly` | server/sync.go:128-141 | a registered path names the nodes with its names, and its keys wherever it gives any |
| `SyncModel.RebuildAgrees` | server/sync.go:184-196 | the rebuild loop yields the same nodes, so keeping the index up equals rebuilding it |
| `SyncModel.RegistersAgreeExactly` | server/sync.go:114-145 | a path can be registered in agreement on every tree if and only if it has no list keys |
| `SyncModel.KeptDeleteAgreesExactly` | server/sync.go:86-101 | a deletion that is refused after its events, or of the root, leaves the index in agreement if and only if none of the reported nodes was required |
| `SyncModel.KeptDeleteDisagrees` | server/data.go:69-93 | deleting the one registered node, or the root above it, without removing it, takes it out of the index |
| `SyncModel.ExchangeDisagrees` | server/set.go:137-163 | a Set that removes the one registered node leaves it in the index |
| `SyncModel.RemovesExactly` | server/sync.go:152-183 | an unregistration succeeds if and only if every path has a schema and more registrations than the paths before it use up, and takes one registration away per path before the first that has not |
| `SyncModel.FailedRemovalExactly` | server/sync.go:154-182 | after a failed unregistration the index agrees if and only if every node of the tree with registrations has more of them than the paths before the failure took away |
| `SyncModel.FailedRemovalDisagrees` | server/sync.go:154-182 | unregistering the one registered path together with an unknown one leaves its node in the index |
| `SyncModel.AskedSpaced` | server/sync.go:206-216 | consecutive requests for a node are more than the interval apart |
| `SyncModel.RateBound` | server/sync.go:200-220 | the i-th and the j-th request for a node are more than j - i intervals apart |
| `SyncModel.WithheldExactly` | server/sync.go:206-216 | a matched node of the index is withheld if and only if its last request is at most the interval old, and only what is sent gets a new time |
| `SyncModel.SentIsAsked` | server/sync.go:200-220 | over any run of syncs the times a node is sent are those the rate limiter asks for |
| `SyncModel.SendsAreSpaced` | server/sync.go:200-220 | over any run of syncs with a clock that never runs backwards, two sends of a node are more than as many intervals apart as there are sends from one to the other |
| `SyncModel.SendsAreSpacedWithResets` | server/sync.go:111-220 | the same over runs in which registrations, rebuilds and events change the index: every reset of the time of a node costs at most one interval |
| `SyncServer.Server.RegisterSync` | server/sync.go:111-147 | the loop registers up to the first unknown path and adds the found nodes; agreement is kept |
| `SyncServer.Server.UnregisterSync` | server/sync.go:152-198 | drops one registration per path and rebuilds; a failure leaves the index as it was, in agreement exactly under the condition of `SyncModel.FailedRemovalExactly` |
| `SyncServer.Server.EventReceive` | server/sync.go:86-101 | the loop over receivers adds or removes the node exactly when one of them is reached and has its schema |
| `SyncServer.Server.Merge` | server/data.go:10-31 | merging keeps the index in agreement |
| `SyncServer.Server.DeleteNode` | server/data.go:69-93 | deleting one node drops exactly its reported nodes from the index, also when the removal is refused, and keeps agreement exactly if the node is gone or nothing of it was required |
| `SyncServer.Server.Delete` | server/data.go:56-95 | the same for the loop over the nodes a path selects, up to the first refused one |
| `SyncServer.Server.Commit` | server/server.go:524-573 | after a transaction of the Set model the index agrees if and only if the same nodes are required |
| `SyncServer.Server.SyncExec` | server/sync.go:200-220 | requests exactly the matched nodes that are due, once each, and records only those: one call of the run model |
| `AliasModel.HistoryIsSound` | server/aliases.go:77-182 | after any history of client and server updates every reverse entry is filed under its path and is the forward entry of its name |
| `AliasModel.AddKeepsOneToOneExactly` | server/aliases.go:98-109 | adding server aliases keeps the tables one-to-one if and only if the new paths are unused and pairwise different |
| `AliasModel.ClientKeepsOneToOne` | server/aliases.go:165-181 | client updates always keep them one-to-one |
| `AliasModel.ClientUpdateExactly` | server/aliases.go:123-182 | an update is refused if and only if one of the checks fails, and then changes nothing; an accepted definition puts its entry under its name and its path, an accepted deletion takes name and path out, and all else stays |
| `AliasModel.ClientErrorExactly` | server/aliases.go:123-173 | which error each check gives, and whom it names |
| `AliasModel.BatchDefines` | server/aliases.go:184-199 | after an accepted batch of definitions every name of it stands for its own path, and that path for the name |
| `AliasModel.ServerNamesExactly` | server/aliases.go:77-120 | an addition adds exactly the unknown names with a hash and a proper path, a removal removes exactly those of them that the server had added |
| `AliasModel.ServerAddedAt` | server/aliases.go:98-109 | an added name stands for its path as the server's |
| `AliasModel.ServerRemovedAt` | server/aliases.go:110-117 | what a removal leaves under each name and each path |
| `AliasModel.HistoryOneToOneExactly` | server/aliases.go:77-182 | over any history of client and server updates the tables are one-to-one throughout if and only if no server addition collided |
| `AliasModel.CollisionBreaks` | server/aliases.go:98-109 | two server aliases for one path, added to empty tables, break it in any map order |
| `AliasModel.HistoryRoundTrip` | server/aliases.go:206-304 | after a history without collisions every alias of a proper path comes back from its path |
| `AliasModel.OrderIrrelevantExactly` | server/aliases.go:84-110 | the outcome of an addition is independent of map order if and only if no two added names share a path |
| `AliasModel.AddRemoveRestoresExactly` | server/aliases.go:77-120 | removing what was added restores both tables if and only if no name was a server alias before and no added path had an alias |
| `AliasModel.PathRoundTrip` | server/aliases.go:206-304 | path to alias and back is the identity on every path string that is no alias |
| `AliasModel.GPathRoundTrip` | server/aliases.go:212-228 | for gNMI paths target and origin survive and the elements are those of an entry for the same data path |
| `AliasModel.AliasRoundTripExactly` | server/aliases.go:254-304 | alias to path and back returns a defined alias exactly when it owns the reverse entry of a proper path |
| `AliasModel.UnaliasedStays` | server/aliases.go:206-304 | a path without an alias, and an alias that is not defined, stay as they are |
| `AliasModel.UnaliasedIsConverted` | server/aliases.go:206-304 | or, in the other format, become the string or the elements of the same path |
| `AliasModel.AliasedIsExchanged` | server/aliases.go:206-304 | a path with an alias becomes that alias and a defined alias its path, in either format, keeping target and origin |
| `Aliases.ClientAliases.AddServerAliases` | server/aliases.go:84-110 | in any map order: an outcome of the addition, the names returned are exactly the added ones, once each |
| `Aliases.ClientAliases.RemoveServerAliases` | server/aliases.go:110-117 | in any map order: exactly the server's aliases of those names go, with their reverse entries |
| `Aliases.ClientAliases.UpdateServerAliases` | server/aliases.go:77-120 | one of the two, and the flag is set |
| `Aliases.ClientAliases.UpdateClientAlias` | server/aliases.go:123-182 | every check in order; refused updates change nothing |
| `Aliases.ClientAliases.UpdateClientAliases` | server/aliases.go:184-199 | applies exactly the longest accepted prefix, returns exactly its names, and the error of the next one |
| `SubKey.KeyInjective` | server/subscribe.go:632-641 | two keys are equal if and only if all rendered fields are, whatever dashes the prefix contains |
| `SubKey.JoinInjective` | server/subscribe.go:633-640 | fields joined by dashes can be recovered when all but one are free of dashes |
| `SubKey.MergingIsSound` | server/subscribe.go:649-668 | requests with one key would get the same configuration or the same refusal |
| `SubKey.ConfigIsRunnable` | server/subscribe.go:702-747 | an accepted stream configuration never samples below the minimum interval, on change never, and has no heartbeat below the minimum or its samples |
| `SubKey.ConfiguredExactly` | server/subscribe.go:702-747 | which requests are accepted, and that the intervals are those asked for or the stated defaults |
| `SubKey.FieldsExample` | server/subscribe.go:632-641 | the fields of two keys in their order, and how they are joined |
| `Session.Hub.AddSubscription` | server/subscribe.go:617-756 | an existing key gets the path added and nothing else changed, its fullpath included; a new one gets a subscriber configured as asked, or the refusal |
| `Session.Hub.IndexedAreOpen` | server/subscribe.go:216-231 | in every reachable state whoever is in the receiver index has an open channel and a running session |
| `Session.Hub.Register` | server/subscribe.go:862-864 | enters one owned subscriber into the index |
| `Session.Hub.AddAll` | server/subscribe.go:847-861 | adds every subscription of a request, or fails if and only if one of them has a refused configuration |
| `Session.Hub.Subscribe` | server/subscribe.go:840-881 | whatever a request lists, only subscribers of its running session enter the index: all of them when it succeeds, none when a configuration is refused |
| `Session.Hub.StopOne` | server/subscribe.go:134-139 | unregister, close, forget: in between every indexed channel is open |
| `Session.Hub.Stop` | server/subscribe.go:120-158 | the index loses exactly the session's subscribers, all of which are closed |

## Left out

- gRPC streams, logging, JSON and protobuf encoding, timestamps, mutexes and goroutines: plumbing without a state law.
- `Get`, `Capabilities`, `CheckModels`, `CheckEncoding`, the session limit, `server/internal.go` and `utilities/`: easy members only.
- `SetEventByPath`: nothing in the server calls it; it is `SetEvent` with paths in place of nodes.
- The `Duplicates` field of outgoing updates: the counts are proved on batches, not on messages.
- SetServer.Server.SetDelete: does not model the wildcard `...`, whose found nodes nest, so that removing one changes the path and the saved subtree of another.
- SetServer.Server.SetRollback: passes the subtrees as they were logged; in Go the new node is shared with the tree, so for overlapping paths a callback would see later edits of it.
- DataTree.FoundAreIndependent: is false for the wildcard `...`, which is not modelled.
- SetServer.Server.SetLoad: takes what reading the data as JSON gives as a parameter.
- TelemetryModel.Telemetry: takes the deletions below the prefix by paths; the code compares strings, so with the prefix `/a` a deletion of `/ab` is sent as one of `b`. This concerns subscriptions with a prefix only.
- EventControl.EventCtrl.Unregister: forgets the calls made to the receiver, so the protocol is stated from one registration on.
- Replica.ConvergesExactly: paths are data paths or, across lists, pure schema paths; wildcards and paths that give some but not all list keys are not modelled.
- Replica.ConvergesExactly: with updates_only there is no first message, and convergence would depend on what the client had.
- Sampling.CurrentExactly: POLL subscriptions, which send the pending batch on request, are not modelled.
- TelemetryModel.EventsAreConserved: batch counts are unbounded integers; in Go they are 32 bits wide.
- SyncServer.Server.SyncExec: the lookup of the nodes a request matches is a parameter, and a zero time is always due.
- Aliases.ClientAliases.UpdateClientAlias: the nil receiver and the clearing of the tables at the end of a session are not modelled.
- AliasModel.GPathRoundTrip: the conversion returns a new path; in Go the caller's path is overwritten in place.
- Session.Hub.Subscribe: poll and alias requests, the dynamic subscription data and the sending goroutine of a subscriber are not modelled.
- Session.Hub.AddSubscription: the name argument that overrides the key is always empty in the server and is not modelled.
- Subscriber numbers, event ids and intervals are unbounded integers; transaction numbers wrap as in Go.
