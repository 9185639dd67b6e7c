# Tablet state store of the Accumulo manager, in Dafny

This project models `MetaDataStateStore`, the tablet state store that the Accumulo
manager keeps for one data level (root, metadata or user tablets). The store does three things:

- **Buffer of known state changes.** A FIFO buffer of `TabletManagement` notifications with
  capacity 1000. `addTabletStateChange` offers a notification without blocking. It answers
  false when the buffer is full. The buffer is the field `knownStateChanges` of the class
  `ManagerState.MetaDataStateStore`, a `seq` that the method reassigns. The pure function
  `Offer` states what one offer does. `OfferAll` folds it over a sequence of offers, so that
  lemmas can speak of many offers in a row.
- **Unsuspend.** For each tablet of the batch whose suspension is null, `unsuspend` submits
  one conditional mutation to Ample's conditional tablet mutator. The mutation requires that
  no operation is recorded and that the stored prevEndRow is the extent's. Its delta deletes
  the suspension, and its post-check is "no suspension left". The method then folds the
  processed statuses into normal completion or a `DistributedStoreException`. The skip test
  is modelled as written: tablets that DO carry a suspension are skipped.
- **Suspension decision.** `processSuspension` looks at the tablet's current location, its
  existing suspension and a timestamp. It either puts a suspension, deletes it, or does nothing.

Ample is not part of this model. The store receives it as a parameter: a function from the
submitted batch to a `ProcessResult`, which is either a map from extent to status
(ACCEPTED, REJECTED, UNKNOWN) or a runtime exception. Preconditions, deltas and post-checks
are data (`ConditionalMutator`). `Satisfies`, `ApplyDeltas` and `Holds` give their meaning
for the lemmas that relate a planned mutation to tablet metadata.

`getLevel` and `name` are modelled as the accessors `MetaDataStateStore.GetLevel` and
`MetaDataStateStore.Name`. The one-argument constructor scans the metadata table, whose
name is "accumulo.metadata".

Files: `wrappers.dfy` (Option, Outcome), `metadata.dfy` (tablet entities),
`conditional_mutator.dfy` (the mutator's vocabulary), `manager_state.dfy` (the store).

## Model

| member | source | states |
|---|---|---|
| `ManagerState.Offer` | server/base/src/main/java/org/apache/accumulo/server/manager/state/MetaDataStateStore.java:40-41 | an offer is accepted iff fewer than 1000 events are queued; if accepted, the event goes at the tail and earlier events are unchanged and keep their order; if refused, the buffer is exactly as before |
| `ManagerState.OfferAllSpec` | server/base/src/main/java/org/apache/accumulo/server/manager/state/MetaDataStateStore.java:69-71 | over any sequence of offers to a buffer within capacity, the i-th offer is accepted iff the buffer held fewer than 1000 events at that point; the buffer ends as the old contents followed by the accepted events in order; its length never exceeds 1000 |
| `ManagerState.ThousandAndOneOffers` | server/base/src/main/java/org/apache/accumulo/server/manager/state/MetaDataStateStore.java:40-41 | starting empty, 1001 offers give 1000 trues and then one false, and the buffer holds the first 1000 events |
| `ManagerState.MetaDataStateStore.AddTabletStateChange` | server/base/src/main/java/org/apache/accumulo/server/manager/state/MetaDataStateStore.java:68-71 | the store's buffer after the call and the answer are those of `Offer`; the buffer invariant (at most 1000 events) is preserved |
| `ManagerState.MetaDataStateStore.ForTable` | server/base/src/main/java/org/apache/accumulo/server/manager/state/MetaDataStateStore.java:43-51 | a new store keeps the given level and target table and starts with an empty buffer |
| `ManagerState.MetaDataStateStore.constructor` | server/base/src/main/java/org/apache/accumulo/server/manager/state/MetaDataStateStore.java:53-55 | a new store keeps the given level, targets the metadata table and starts with an empty buffer |
| `ManagerState.MetaDataStateStore.GetLevel` | server/base/src/main/java/org/apache/accumulo/server/manager/state/MetaDataStateStore.java:57-60 | the level returned is the one the store was constructed with |
| `ManagerState.MetaDataStateStore.Name` | server/base/src/main/java/org/apache/accumulo/server/manager/state/MetaDataStateStore.java:97-100 | the name is "Normal Tablets" |
| `ManagerState.UnsuspendMutation` | server/base/src/main/java/org/apache/accumulo/server/manager/state/MetaDataStateStore.java:82-84 | a submitted mutation is keyed by the tablet's extent; its preconditions are exactly requireAbsentOperation and requirePrevEndRow(extent.prevEndRow()); its delta is deleteSuspension; its post-check is "suspend is null" |
| `ManagerState.UnsuspendPlanSelects` | server/base/src/main/java/org/apache/accumulo/server/manager/state/MetaDataStateStore.java:76-85 | the submitted batch has one mutation per selected tablet, in input order, the j-th built from the j-th selected tablet |
| `ManagerState.SelectedTabletsFilter` | server/base/src/main/java/org/apache/accumulo/server/manager/state/MetaDataStateStore.java:76-79 | the selected tablets come from the input and have a null suspension; no tablet with a suspension is selected; each tablet with a null suspension is selected as often as it occurs in the input |
| `ManagerState.SelectedTabletsAppend` | server/base/src/main/java/org/apache/accumulo/server/manager/state/MetaDataStateStore.java:76-79 | selection keeps input order: selecting from a concatenation selects from the first part, then from the second |
| `ManagerState.UnsuspendPlanEmptyWhenAllSuspended` | server/base/src/main/java/org/apache/accumulo/server/manager/state/MetaDataStateStore.java:77-79 | a batch in which every tablet carries a suspension submits no mutation |
| `ManagerState.UnsuspendConditionsHold` | server/base/src/main/java/org/apache/accumulo/server/manager/state/MetaDataStateStore.java:82-83 | the preconditions of a tablet's mutation hold of any stored metadata iff no operation is recorded there and the stored prevEndRow equals the one the mutation was built from |
| `ManagerState.UnsuspendPostCheckHolds` | server/base/src/main/java/org/apache/accumulo/server/manager/state/MetaDataStateStore.java:83-84 | whatever the stored suspension, the deleteSuspension delta leaves none, so the post-check accepts the written metadata |
| `ManagerState.AnyUnaccepted` | server/base/src/main/java/org/apache/accumulo/server/manager/state/MetaDataStateStore.java:87-88 | the anyMatch over the processed statuses is true iff some status is not ACCEPTED |
| `ManagerState.Unsuspend` | server/base/src/main/java/org/apache/accumulo/server/manager/state/MetaDataStateStore.java:74-95 | the submitted batch is exactly the plan for the input, whatever the outcome (nothing is undone); the call ends normally iff the mutator returns statuses and all are ACCEPTED; an empty batch succeeds when the mutator reports statuses only for submitted tablets; any REJECTED or UNKNOWN gives `DistributedStoreException` "conditions not satisfied"; a runtime failure gives `DistributedStoreException` wrapping it, and no other error kind is possible |
| `ManagerState.ProcessSuspension` | server/base/src/main/java/org/apache/accumulo/server/manager/state/MetaDataStateStore.java:103-114 | at most one mutator call is made; a put-suspension (current server, given timestamp) iff the tablet has a current location and the timestamp is >= 0; a delete-suspension iff it has a suspension and the timestamp is < 0; no call otherwise |
| `ManagerState.ProcessSuspensionEffect` | server/base/src/main/java/org/apache/accumulo/server/manager/state/MetaDataStateStore.java:105-113 | after the calls, the tablet's suspension names the current server and the timestamp when it is hosted and the timestamp is >= 0; it is gone when the timestamp is < 0; otherwise it is unchanged |

## Left out

- `iterator()` and `TabletManagementScanner` (the consumer side of the buffer): a live range scan of the metadata table merged with the buffer. The scanner is not part of this model.
- Ample's internals: how preconditions are checked against stored rows, the per-row conditional write, and when the predicate given to `submit` is evaluated. The mutator's answer is an input.
- UnsuspendPostCheckHolds: assumes the predicate given to `submit` is checked against the tablet's metadata after the delta is written. The code shown does not say when the mutator evaluates it.
- Unsuspend: a runtime exception thrown anywhere in the mutator session is modelled as the session's result `Raised`. This covers opening the session, submitting partway through the batch, `process()`, and closing the session after `process()` reported every mutation ACCEPTED. All end in the same wrapped `DistributedStoreException`. The model does not say which mutations reached the mutator before the failure.
- Unsuspend: that the mutator reports statuses only for submitted tablets is a hypothesis of the empty-batch clause (`ReportsOnlySubmitted`), not something the model derives, since the mutator is not part of this model.
- Unsuspend: the result map is keyed by extent. Two tablets of one batch with the same extent give two planned mutations but at most one status. What Ample does with such a batch is not part of this model.
- Thread safety of `ArrayBlockingQueue`: offers are modelled one at a time.
- `ClientContext`, `CurrentState` and `AbstractTabletStateStore`, the caller that supplies `processSuspension`'s mutator and timestamp, are not part of this model. The context and the state are not stored.
- `TabletMetadata` and `TabletManagement` carry only the fields the store reads. `hasCurrent()` is modelled as "a location is present and it is a current one".
- The FATE integration tests under test/src/main/java/org/apache/accumulo/test/fate/meta/ exercise a transaction record codec and ZooKeeper storage that are not part of this model.
