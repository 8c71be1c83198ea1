# NetworkStateListener, modelled in Dafny

SimEthereal's `NetworkStateListener` runs on the server, one per client
connection. It does four jobs:

- It receives the client's acknowledgments of transmitted frames and keeps
  a running estimate of the round-trip time.
- It ingests the zone manager's per-zone state blocks into the
  connection's object table.
- Once per frame, it commits the acknowledged frames as baselines, writes
  one delta per tracked object, and reaps the objects whose
  `isFullyMarkedRemoved()` holds. In this model that holds once an
  object is marked removed and the client has confirmed a version, sent
  under the object's network id, that carried the removal. The
  confirmation is matched by network id alone, so once an id is reused it
  can come from a frame sent for the id's previous holder (see
  "## Left out").
- After that, it re-centres the connection's zones on the player's own
  entity.

This project models the listener as a Dafny class, `NetworkState.NetworkStateListener`,
in `listener.dfy`. Its fields are the ones the Java class updates in place.
The collaborators become values held in fields:

- the object table (`SharedObjectSpace`) is a sequence of `SharedObject`
  values in iteration order;
- the `IdIndex` is a map from entity id to network id;
- the `StateWriter` is a log of the requests made of it, plus its table of
  transmitted frames;
- the `LocalZoneIndex`'s centre is a field. Its `setCenter` answer is
  supplied by the caller of `EndFrame` as a function, and `getZoneId` is a
  parameter of `StateChanged`.

The per-frame work is split like the Java method: `DrainAcks` is the
`acked.poll()` loop, `WriteFrame` is the `startFrame` plus iterator walk,
and `UpdateCenter` is the re-centring. `StateChanged` is split into its
update and removal loops.

Each loop is proved against a specification function:

- `AckDrain.Drain` for the drain;
- `FrameWalk.WalkFrom`, and through it the prefix descriptions
  `FrameWalk.Kept`, `FrameWalk.Retired` and `FrameWalk.FrameDeltas`, for the
  walk;
- `Ingestion.ApplyUpdates` and `Ingestion.ApplyRemovals` for ingestion.

Lemmas about those functions state what the listener promises. The
listener's invariant `Valid()` says two things: the ping window stays
within `[0, 100]`, and table and id index stay consistent (unique network
ids, and every object's entity maps to its id).

The Java sources of `SharedObject`, `SharedObjectSpace`, `IdIndex`,
`StateWriter` and `LocalZoneIndex` are not part of this model. Their
behaviour is modelled abstractly, from how this class uses them:

- `updateState` refuses a state older than the object's version;
- `markRemoved` moves the version forward;
- an object is fully removed once it is marked removed and the client has
  confirmed a version, sent under its network id, that carried the
  removal. A commit matches a pair to an object by network id alone;
- committing an acknowledged (network id, version) pair keeps the most
  recent confirmed state. The baseline moves to the pair unless it
  already confirms a later version, or the removal of the same version.
  The result therefore does not depend on the order in which
  acknowledgments arrive: `AckDrain.DrainOrderIrrelevant` shows that any
  reordering of the queue drains to the same table and writer;
- `getId(e, true)` hands out the smallest unused network id;
- `ackSentState` hands a frame's record back at most once.

Java `long` arithmetic is modelled with unbounded integers, with
`Long.MIN_VALUE` as the version of a fresh object. Java's truncating
division is written out as `PingEstimate.JavaDiv`.

`GetSelf`, `HasChangedZones`, `EnteredZones` and `ExitedZones` are plain
field reads (lines 125-127 and 163-176). `BeginFrame`'s contract is
written in terms of them.

The writer's flush is outside this class. `FrameFlushed` is the step by
which a transmitted frame's record enters the writer's table, so that
acknowledgments can find it. `FrameWalk.AcknowledgedRemovalIsReaped`
shows that an acknowledged removal leads to reaping.
`FrameWalk.ReusedIdTakesStaleRemoval` shows the other side: a late
acknowledgment of a frame sent for a reused id's previous holder reaps
the id's new holder.

Specification functions without a contract of their own, and the lemmas
that state their properties:

- `PingEstimate.NextPing` (line 186): `FirstSampleIsEstimate`,
  `SteadySampleKeepsEstimate`, `EstimateBetweenSampleAndOld`.
- `FrameWalk.Mark` (lines 273-278): `ImplicitRemoval`, `MarkKeepsIdentity`.
- `Ingestion.RefreshObject` and `Ingestion.ApplyUpdate` (lines 329-338):
  `UpdateTakesState`, `UpdateKeepsConsistent`, `SelfUpdateCachesPosition`.
- `Ingestion.ApplyRemoval` (lines 344-356): `UntrackedRemovalIsNoop`,
  `TrackedRemovalMarks`, `RemovalsOnlyMark`.
- `StateWriters.StartFrameOf`, `StateWriters.AddStateOf` and
  `StateWriters.AckSentState` (lines 235, 264, 280): `WriteFrame`,
  `SecondAckFindsNothing`, `DrainConsumesAcknowledged`.
- `SharedObjects.IsFullyMarkedRemoved` (line 282): `FrameWalk.ReapedIffFullyRemoved`,
  `FrameWalk.AcknowledgedRemovalIsReaped`.
- `IdIndexes.RetireAll` (line 287): `RetireExtendsRetireAll`,
  `RetireAllKeepsValid`, `FrameWalk.WalkKeepsConsistent`.

## Model

| member | source | states |
|---|---|---|
| PingEstimate.JavaDiv | src/main/java/com/simsilica/ethereal/NetworkStateListener.java:186 | the quotient is truncated toward zero: `q*d` lies between 0 and the dividend, within one divisor of it, for either sign |
| PingEstimate.NextWindow | src/main/java/com/simsilica/ethereal/NetworkStateListener.java:187-189 | from a window in [0, 100] the next window stays in [0, 100], never shrinks, and stays put exactly when it is full at 100 |
| PingEstimate.FirstSampleIsEstimate | src/main/java/com/simsilica/ethereal/NetworkStateListener.java:186 | with an empty window the first sample becomes the estimate, whatever the old estimate |
| PingEstimate.SteadySampleKeepsEstimate | src/main/java/com/simsilica/ethereal/NetworkStateListener.java:186 | a sample equal to the estimate leaves the estimate unchanged for every window size |
| PingEstimate.EstimateBetweenSampleAndOld | src/main/java/com/simsilica/ethereal/NetworkStateListener.java:184-186 | the new estimate lies between the sample and the old estimate (a weighted mean; truncation never leaves the range) |
| PingEstimate.WindowAfterResponses | src/main/java/com/simsilica/ethereal/NetworkStateListener.java:103-104 | after n responses from an empty window the window is min(n, 100) |
| SharedObjects.NewObject | src/main/java/com/simsilica/ethereal/NetworkStateListener.java:332 | a created object has the requested ids, is not removed, has no baseline, and its version is not newer than any `long` time |
| SharedObjects.UpdateState | src/main/java/com/simsilica/ethereal/NetworkStateListener.java:333 | the state is taken iff it is not older than the object's version; a taken state sets version, position and rotation; identity, removal flag and baseline never change |
| SharedObjects.MarkRemoved | src/main/java/com/simsilica/ethereal/NetworkStateListener.java:356 | the object becomes marked removed, keeps identity and baseline, and its version becomes the later of its version and the time |
| SharedObjects.GetDelta | src/main/java/com/simsilica/ethereal/NetworkStateListener.java:280 | the delta carries the object's network and entity id |
| SharedObjects.CommitBaseline | src/main/java/com/simsilica/ethereal/NetworkStateListener.java:258 | committing touches only the baseline; the baseline becomes the pair or stays as it was, and its version never decreases and is at least the pair's |
| SharedObjects.CommitOrderIrrelevant | src/main/java/com/simsilica/ethereal/NetworkStateListener.java:232-258 | two pairs committed in either order give the same object, and committing a pair twice is committing it once |
| SharedObjects.DeltaAgainstCommittedBaseline | src/main/java/com/simsilica/ethereal/NetworkStateListener.java:240-258 | after committing a pair at least as new as the baseline, the object's next delta is expressed against exactly that pair; an older pair changes nothing |
| SharedObjects.FreshObjectAcceptsFirstState | src/main/java/com/simsilica/ethereal/NetworkStateListener.java:332-333 | a freshly created object accepts its first state at any `long` time |
| IdIndexes.FirstFree | src/main/java/com/simsilica/ethereal/NetworkStateListener.java:329 | the result is the least id at or above k that is not in use |
| IdIndexes.GetId | src/main/java/com/simsilica/ethereal/NetworkStateListener.java:329 | a known entity gets its id and nothing changes; an unknown one gets -1 without `create`, or with `create` the smallest unused id, newly recorded |
| IdIndexes.Retire | src/main/java/com/simsilica/ethereal/NetworkStateListener.java:287 | exactly the entity holding the id is forgotten; the ids in use lose that id and nothing else |
| IdIndexes.RetireExtendsRetireAll | src/main/java/com/simsilica/ethereal/NetworkStateListener.java:287 | retiring ids one at a time, as the walk does, is retiring the whole sequence |
| IdIndexes.GetIdKeepsValid | src/main/java/com/simsilica/ethereal/NetworkStateListener.java:329-344 | lookups keep ids non-negative and distinct, never change an id handed out, and a non-creating lookup changes nothing |
| IdIndexes.RetireAllKeepsValid | src/main/java/com/simsilica/ethereal/NetworkStateListener.java:287 | retiring keeps ids non-negative and distinct |
| IdIndexes.RetiredIdIsReused | src/main/java/com/simsilica/ethereal/NetworkStateListener.java:287 | a retired id is handed to the next new entity when every smaller id is taken |
| ObjectSpace.FindIndex | src/main/java/com/simsilica/ethereal/NetworkStateListener.java:348 | the position of an object with the id, or -1 iff there is none |
| ObjectSpace.GetObject | src/main/java/com/simsilica/ethereal/NetworkStateListener.java:348-351 | some object iff the table holds that id, and then an object with that id |
| ObjectSpace.CommitEntry | src/main/java/com/simsilica/ethereal/NetworkStateListener.java:258 | one confirmed pair changes at most baselines and keeps the table's length |
| ObjectSpace.UpdateBaseline | src/main/java/com/simsilica/ethereal/NetworkStateListener.java:258 | committing a frame changes at most baselines and keeps the table's length |
| ObjectSpace.CommitEntrySetsBaseline | src/main/java/com/simsilica/ethereal/NetworkStateListener.java:258 | the object a pair names commits that pair; every other object is untouched |
| ObjectSpace.UpdateBaselineConfirmsRemoval | src/main/java/com/simsilica/ethereal/NetworkStateListener.java:258 | a frame whose pairs for an object are no later than v keeps its baseline no later than v and keeps a confirmed removal at v; a frame carrying the removal at v confirms it |
| ObjectSpace.SameButBaselineKeepsConsistent | src/main/java/com/simsilica/ethereal/NetworkStateListener.java:258 | baseline changes keep table and id index consistent |
| ObjectSpace.UpdateBaselineCommutes | src/main/java/com/simsilica/ethereal/NetworkStateListener.java:258 | two frames' records committed to a table in either order give the same table |
| StateWriters.SecondAckFindsNothing | src/main/java/com/simsilica/ethereal/NetworkStateListener.java:235-238 | a frame record is consumed by its first acknowledgment |
| AckDrain.Drain | src/main/java/com/simsilica/ethereal/NetworkStateListener.java:231-259 | draining changes only baselines, keeps the table's length and leaves the writer's log untouched |
| AckDrain.DrainConsumesAcknowledged | src/main/java/com/simsilica/ethereal/NetworkStateListener.java:232-235 | afterwards the writer's table is the old one minus exactly the acknowledged frame ids |
| AckDrain.DrainCommitsKnownOnce | src/main/java/com/simsilica/ethereal/NetworkStateListener.java:232-258 | the committed frames are exactly the acknowledged ones the writer still knew, each once, as a subsequence of the queue and in the order of each frame's first acknowledgment |
| AckDrain.DrainCommitsInQueueOrder | src/main/java/com/simsilica/ethereal/NetworkStateListener.java:232-258 | committed frames are acknowledged ones, listed in the order of their first acknowledgment in the queue |
| AckDrain.DrainAppliesCommits | src/main/java/com/simsilica/ethereal/NetworkStateListener.java:257-258 | the drained table is `updateBaseline` applied once per committed frame, in commit order, with that frame's record |
| AckDrain.UnknownAckIsNoop | src/main/java/com/simsilica/ethereal/NetworkStateListener.java:236-238 | an acknowledgment of an unknown or consumed frame changes nothing |
| AckDrain.DrainConfirmsRemoval | src/main/java/com/simsilica/ethereal/NetworkStateListener.java:231-259 | whatever the order of the queue, if some acknowledged frame the writer knows carries an object's removal at v and no record carries a later version, the drained object has its removal confirmed; an older acknowledgment drained later does not undo it |
| AckDrain.DrainOrderIrrelevant | src/main/java/com/simsilica/ethereal/NetworkStateListener.java:231-259 | any reordering of the acknowledgment queue (equal multisets) drains to the same table and the same writer; only the order of the commits differs |
| AckDrain.SwapAdjacentAcks | src/main/java/com/simsilica/ethereal/NetworkStateListener.java:231-259 | two neighbouring acknowledgments, anywhere in the queue, drain to the same table and writer in either order |
| AckDrain.UnknownAckIsNoopLater | src/main/java/com/simsilica/ethereal/NetworkStateListener.java:235-238 | an acknowledgment of a frame the writer no longer knows has no effect wherever it stands in the queue |
| AckDrain.DuplicateAckCommitsOnce | src/main/java/com/simsilica/ethereal/NetworkStateListener.java:235-238 | a later copy of an acknowledgment, anywhere in the queue, has no effect: `[m] + mid + [m] + rest` drains as `[m] + mid + rest` |
| FrameWalk.ImplicitRemoval | src/main/java/com/simsilica/ethereal/NetworkStateListener.java:273-278 | an unremoved object older than the frame becomes marked removed at the frame's time; any other object is left as it is; the step is idempotent |
| FrameWalk.MarkKeepsIdentity | src/main/java/com/simsilica/ethereal/NetworkStateListener.java:273-278 | the step keeps ids and baseline and never moves the version back |
| FrameWalk.OneDeltaPerObject | src/main/java/com/simsilica/ethereal/NetworkStateListener.java:266-280 | the walk logs exactly one delta per object, in table order, taken after the implicit-removal step |
| FrameWalk.KeptAreSurvivors | src/main/java/com/simsilica/ethereal/NetworkStateListener.java:282-286 | what stays in the table is exactly the stepped objects that are not fully removed |
| FrameWalk.RetiredAreReaped | src/main/java/com/simsilica/ethereal/NetworkStateListener.java:282-287 | an id is retired iff it belongs to an object that is fully removed after its step |
| FrameWalk.ReapedIffFullyRemoved | src/main/java/com/simsilica/ethereal/NetworkStateListener.java:282-287 | an object leaves the table, and its id is retired, iff it is fully removed after its delta |
| FrameWalk.KeptKeepsUniqueIds | src/main/java/com/simsilica/ethereal/NetworkStateListener.java:286 | the surviving objects still have distinct network ids |
| FrameWalk.WalkKeepsConsistent | src/main/java/com/simsilica/ethereal/NetworkStateListener.java:282-287 | after reaping and retiring, table and id index are still consistent |
| FrameWalk.WalkAdvance | src/main/java/com/simsilica/ethereal/NetworkStateListener.java:266-288 | one iterator step, done in place, extends the walked prefix by one object, in both the removed and the kept case |
| FrameWalk.WalkFromWalked | src/main/java/com/simsilica/ethereal/NetworkStateListener.java:266-290 | from any intermediate state, the rest of the in-place walk ends with the survivors, the reaped ids retired and every delta logged |
| FrameWalk.ReusedIdTakesStaleRemoval | src/main/java/com/simsilica/ethereal/NetworkStateListener.java:257-287 | with id 0 reused by entity 8, a late acknowledgment of a frame that carried the previous holder's removal of id 0 confirms that removal for entity 8, which the next walk then reaps in the frame that first marks it removed |
| FrameWalk.AcknowledgedRemovalIsReaped | src/main/java/com/simsilica/ethereal/NetworkStateListener.java:257-287 | for any queue: a marked object whose removal at v is carried by some acknowledged frame the writer knows, with no record carrying a later version, becomes fully removed, leaves the table in the next walk, and has its id retired |
| FrameWalk.WalkComputesFrame | src/main/java/com/simsilica/ethereal/NetworkStateListener.java:266-290 | the whole in-place walk is `Kept`, `RetireAll` of `Retired`, and the log extended by `FrameDeltas` |
| Ingestion.UpdateKeepsConsistent | src/main/java/com/simsilica/ethereal/NetworkStateListener.java:329-333 | one update keeps table and index consistent, leaves the entity tracked by some object, keeps every earlier id, and only grows the table |
| Ingestion.UpdateTakesState | src/main/java/com/simsilica/ethereal/NetworkStateListener.java:329-338 | the updated entity's object is the one its id names, existing or newly appended; it takes the version, zone, position and rotation unless the state is older than its version; an existing object keeps its removal flag; every other object is unchanged |
| Ingestion.UpdatesKeepConsistent | src/main/java/com/simsilica/ethereal/NetworkStateListener.java:322-340 | all updates keep consistency, track every updated entity, never change an id handed out, and only grow the table |
| Ingestion.SelfPositionOnlyFromSelf | src/main/java/com/simsilica/ethereal/NetworkStateListener.java:333-337 | updates of other entities never move the cached own position |
| Ingestion.SelfUpdateCachesPosition | src/main/java/com/simsilica/ethereal/NetworkStateListener.java:333-337 | an update of the own entity caches its position iff its object takes the state: an existing object whose version is no later than the block's time, or a new object (version `Long.MIN_VALUE`) |
| Ingestion.UntrackedRemovalIsNoop | src/main/java/com/simsilica/ethereal/NetworkStateListener.java:344-351 | removing an entity with no id, or whose id names no object, changes nothing and allocates no id |
| Ingestion.TrackedRemovalMarks | src/main/java/com/simsilica/ethereal/NetworkStateListener.java:344-356 | removing a tracked entity marks exactly its object removed at the block's time |
| Ingestion.RemovalsOnlyMark | src/main/java/com/simsilica/ethereal/NetworkStateListener.java:341-358 | removals allocate no id, keep the own position and the table's length, keep consistency, and leave each object either as it was or marked removed at the block's time |
| Ingestion.BlockKeepsConsistent | src/main/java/com/simsilica/ethereal/NetworkStateListener.java:309-360 | a whole block keeps consistency and tracks every updated entity; the id index is the one the updates left |
| NetworkState.NetworkStateListener.constructor | src/main/java/com/simsilica/ethereal/NetworkStateListener.java:111-118 | a new listener keeps the given id index and zone centre, and has no self, no zone change, an empty queue, ping 0 with an empty window, an empty table and a fresh writer |
| NetworkState.NetworkStateListener.SetSelf | src/main/java/com/simsilica/ethereal/NetworkStateListener.java:120-127 | `getSelf` then answers the given entity and the own position is the starting position |
| NetworkState.NetworkStateListener.FrameFlushed | src/main/java/com/simsilica/ethereal/NetworkStateListener.java:210 | the writer's flush, which transmits the deltas added at line 280, adds exactly one frame record to the table `ackSentState` consumes; the log is untouched |
| NetworkState.NetworkStateListener.PostResponse | src/main/java/com/simsilica/ethereal/NetworkStateListener.java:181-199 | the message is stamped with its arrival time and queued last; the estimate is the truncated weighted mean with the old window; the window grows to at most 100 |
| NetworkState.NetworkStateListener.BeginFrame | src/main/java/com/simsilica/ethereal/NetworkStateListener.java:217-225 | the zone flag is cleared; the zone lists are emptied iff the last frame changed zones, else untouched |
| NetworkState.NetworkStateListener.EndFrame | src/main/java/com/simsilica/ethereal/NetworkStateListener.java:228-305 | the queue ends empty; table, index, writer table and log are the drain followed by the walk, the frame started at the pre-recentre centre; the zones move iff self is known and `setCenter` reports a move |
| NetworkState.NetworkStateListener.DrainAcks | src/main/java/com/simsilica/ethereal/NetworkStateListener.java:231-259 | the queue ends empty and table and writer are `Drain` of the old ones |
| NetworkState.NetworkStateListener.WriteFrame | src/main/java/com/simsilica/ethereal/NetworkStateListener.java:262-293 | the table becomes `Kept`, the index has the `Retired` ids retired, the log gains the frame start and `FrameDeltas`, the writer's table is unchanged, and consistency is kept |
| NetworkState.NetworkStateListener.UpdateCenter | src/main/java/com/simsilica/ethereal/NetworkStateListener.java:295-304 | only with self known and a moved centre are the flag set, the centre moved and the entered/exited zones appended; otherwise nothing changes |
| NetworkState.NetworkStateListener.StateChanged | src/main/java/com/simsilica/ethereal/NetworkStateListener.java:309-360 | a missing zone id is reported iff `zoneId <= 0` and the block is processed anyway: updates then removals, as `ApplyBlock` |
| NetworkState.NetworkStateListener.IngestUpdates | src/main/java/com/simsilica/ethereal/NetworkStateListener.java:322-340 | index, table and own position become `ApplyUpdates` of the block's updates, in order |
| NetworkState.NetworkStateListener.IngestRemovals | src/main/java/com/simsilica/ethereal/NetworkStateListener.java:341-358 | index, table and own position become `ApplyRemovals` of the block's removals, in order |

## Left out

- Concurrency: the acknowledgment queue is a `ConcurrentLinkedQueue` filled from the network thread; here it is a sequence, and `PostResponse` and `EndFrame` never interleave.
- The clock: `resetReceivedTime` reads the current time, which is the `now` parameter of `PostResponse`.
- Logging, including the 10 ms change threshold that only decides whether a debug line is written (lines 190-196).
- `setMaxMessageSize`, `getMaxMessageSize`, `beginFrameBlock` and `endFrameBlock` (the writer's flush), and the `IOException` wrapping: message splitting, MTU and transmission belong to the writer, which is not part of this model.
- The writer's table of transmitted frames is filled when frames are flushed. The flush is not part of this model. `FrameFlushed` is the environment step that records a frame, and its caller supplies the record's contents. Without that step, every acknowledgment is unknown and nothing is ever reaped.
- Reuse of a reaped network id: the walk retires an id at reap (line 287), and `getId` can hand it straight to a new entity, while frame records naming the id may still await acknowledgment. The modelled `updateBaseline` matches pairs by network id only, as this class's calls give it nothing else. So a late acknowledgment of the previous holder's frame rebases, or even reaps, the new holder (`FrameWalk.ReusedIdTakesStaleRemoval`). The model keeps this behaviour. It does not model a guard against it: remembering the entity in each record, or delaying retirement until no record names the id.
- `SharedObject`, `SharedObjectSpace`, `IdIndex`, `StateWriter` and `LocalZoneIndex` are modelled only by the rules this class relies on; their own encodings, buffers and zone geometry are not part of this model.
- `SharedObject.version`: the model does not check 64-bit range or overflow of times, versions or the ping sum `ping + pingTime * windowSize`.
- Positions and rotations are doubles; the model only stores and compares them.
- `EndFrame`: `setCenter` is given as a function of the old centre and the own position; the model assumes it appends zones to the entered and exited lists only when it reports a move.
- `EndFrame`: `selfPosition != null` always holds, because the field is final and initialised, so only `self` is tested.
- `StateChanged`: the zone index's `getZoneId` is the `zoneId` parameter, and the error line printed for `zoneId <= 0` is the `noZoneId` result.
- `StateChanged`: a null update or removal list is the empty sequence, which the source handles the same way.
- The constructor that builds its own `LocalZoneIndex` and `IdIndex` (lines 107-109), and the `EtherealHost`/`HostedConnection` wiring. The model's constructor is the one at lines 111-118, which takes the caller's index. The argument `10` of line 108's `new IdIndex(10)` configures `IdIndex` internals, which are not part of this model.
- Object order: the model appends a newly created object at the end of the table's iteration order. It is not part of this model where `SharedObjectSpace` actually places it, so the order of a frame's deltas for newly created objects is a choice of the model.
- Aliasing: `getEnteredZones` and `getExitedZones` hand out the live lists that `beginFrame` clears and `setCenter` fills in place. `EnteredZones` and `ExitedZones` return values, so a caller holding an earlier list does not see later changes.
