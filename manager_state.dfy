/** The tablet state store for one metadata level: a bounded buffer of tablet
    management notifications, the unsuspend batch, and the suspension decision made
    for a tablet whose server went away. */
module ManagerState {
  import opened Wrappers
  import opened Metadata
  import opened ConditionalMutator

  // ---------------------------------------------------------------------------
  // The notification buffer

  /** Capacity of the buffer of known state changes. */
  const Capacity: nat := 1000

  /** The name of the metadata table, the default table a store scans. */
  const MetadataTableName: string := "accumulo.metadata"

  /** What one non-blocking offer does to the buffer. */
  datatype OfferResult = OfferResult(queue: seq<TabletManagement>, accepted: bool)

  /** A non-blocking offer to a bounded FIFO buffer: appended at the tail when there is
      room, refused with the buffer untouched when it is full. */
  function Offer(queue: seq<TabletManagement>, event: TabletManagement): (r: OfferResult)
    ensures r.accepted <==> |queue| < Capacity
    ensures r.accepted ==> r.queue == queue + [event]
    ensures !r.accepted ==> r.queue == queue
  {
    if |queue| < Capacity then OfferResult(queue + [event], true)
    else OfferResult(queue, false)
  }

  /** The answers and the final buffer after offering `events` one after another. */
  datatype OfferRun = OfferRun(queue: seq<TabletManagement>, accepted: seq<bool>)

  function OfferAll(queue: seq<TabletManagement>, events: seq<TabletManagement>): OfferRun
    decreases |events|
  {
    if events == [] then OfferRun(queue, [])
    else
      var first := Offer(queue, events[0]);
      var rest := OfferAll(first.queue, events[1..]);
      OfferRun(rest.queue, [first.accepted] + rest.accepted)
  }

  function Min(a: int, b: int): int { if a <= b then a else b }

  /** Over any sequence of offers to a buffer within capacity: the i-th offer is accepted
      exactly when the buffer then held fewer than `Capacity` events, the accepted events
      are appended in order after the earlier ones, and the buffer never exceeds `Capacity`. */
  lemma {:induction false} OfferAllSpec(queue: seq<TabletManagement>, events: seq<TabletManagement>)
    requires |queue| <= Capacity
    ensures |OfferAll(queue, events).accepted| == |events|
    ensures forall i :: 0 <= i < |events| ==>
      (OfferAll(queue, events).accepted[i] <==> |queue| + i < Capacity)
    ensures OfferAll(queue, events).queue == queue + events[..Min(|events|, Capacity - |queue|)]
    ensures |OfferAll(queue, events).queue| <= Capacity
    decreases |events|
  {
    if events != [] {
      var first := Offer(queue, events[0]);
      OfferAllSpec(first.queue, events[1..]);
      var run := OfferAll(queue, events);
      var rest := OfferAll(first.queue, events[1..]);
      assert run.accepted == [first.accepted] + rest.accepted;
      forall i | 0 <= i < |events|
        ensures run.accepted[i] <==> |queue| + i < Capacity
      {
        if i > 0 {
          assert run.accepted[i] == rest.accepted[i - 1];
        }
      }
      if first.accepted {
        assert events[..Min(|events|, Capacity - |queue|)]
          == [events[0]] + events[1..][..Min(|events| - 1, Capacity - |first.queue|)];
      } else {
        assert Capacity - |queue| == 0;
        assert events[1..][..Min(|events| - 1, Capacity - |first.queue|)] == [];
      }
    }
  }

  /** Starting from an empty buffer, 1001 offers give 1000 acceptances and then one refusal. */
  lemma ThousandAndOneOffers(events: seq<TabletManagement>)
    requires |events| == Capacity + 1
    ensures OfferAll([], events).accepted == seq(Capacity, _ => true) + [false]
    ensures OfferAll([], events).queue == events[..Capacity]
  {
    OfferAllSpec([], events);
    var run := OfferAll([], events);
    assert |run.accepted| == |seq(Capacity, _ => true) + [false]|;
    forall i | 0 <= i < |run.accepted|
      ensures run.accepted[i] == (seq(Capacity, _ => true) + [false])[i]
    {
    }
  }

  /** The store of one metadata level. The buffer of known state changes is the field
      the source updates in place; the level and the scanned table are fixed at construction. */
  class MetaDataStateStore {
    const level: DataLevel
    const targetTableName: string
    var knownStateChanges: seq<TabletManagement>

    ghost predicate Valid()
      reads this
    {
      |knownStateChanges| <= Capacity
    }

    /** A store for `level` that scans `targetTableName`, with an empty buffer. */
    constructor ForTable(level: DataLevel, targetTableName: string)
      ensures Valid()
      ensures this.level == level && this.targetTableName == targetTableName
      ensures knownStateChanges == []
    {
      this.level := level;
      this.targetTableName := targetTableName;
      knownStateChanges := [];
    }

    /** A store for `level` that scans the metadata table. */
    constructor (level: DataLevel)
      ensures Valid()
      ensures this.level == level && targetTableName == MetadataTableName
      ensures knownStateChanges == []
    {
      this.level := level;
      targetTableName := MetadataTableName;
      knownStateChanges := [];
    }

    /** The data level whose tablets this store manages. */
    function GetLevel(): (r: DataLevel)
      ensures r == level
    {
      level
    }

    /** The store's display name, the same for every level. */
    function Name(): (r: string)
      ensures r == "Normal Tablets"
    {
      "Normal Tablets"
    }

    /** Offers a notification to the buffer without blocking: true and appended at the tail
        when fewer than `Capacity` are queued; false with the buffer unchanged otherwise. */
    method AddTabletStateChange(tablet: TabletManagement) returns (accepted: bool)
      requires Valid()
      modifies this`knownStateChanges
      ensures Valid()
      ensures accepted <==> |old(knownStateChanges)| < Capacity
      ensures knownStateChanges == Offer(old(knownStateChanges), tablet).queue
      ensures accepted == Offer(old(knownStateChanges), tablet).accepted
    {
      if |knownStateChanges| < Capacity {
        knownStateChanges := knownStateChanges + [tablet];
        accepted := true;
      } else {
        accepted := false;
      }
    }
  }

  // ---------------------------------------------------------------------------
  // Unsuspend

  /** The error `unsuspend` declares: either some mutation was not accepted, or a runtime
      failure was wrapped. */
  datatype DistributedStoreException =
    | ConditionsNotSatisfied          // "Some mutations failed to satisfy conditions"
    | Wrapped(cause: RuntimeError)

  /** The mutation `unsuspend` submits for a tablet: require that no operation is present
      and that the stored prevEndRow is the extent's, delete the suspension, and check
      afterwards that no suspension is left. */
  function UnsuspendMutation(tm: TabletMetadata): (m: TabletMutation)
    ensures m.extent == tm.extent
    ensures m.conditions == [AbsentOperation, PrevEndRowEquals(tm.extent.prevEndRow)]
    ensures m.deltas == [DeleteSuspension] && m.postCheck == SuspendIsNull
  {
    TabletMutation(tm.extent, [AbsentOperation, PrevEndRowEquals(tm.extent.prevEndRow)],
      [DeleteSuspension], SuspendIsNull)
  }

  /** The tablets `unsuspend` submits a mutation for: as written, those whose suspension
      is currently null. */
  predicate Selected(tm: TabletMetadata) {
    tm.suspend.None?
  }

  /** The mutations `unsuspend` submits for `tablets`, in order. */
  function UnsuspendPlan(tablets: seq<TabletMetadata>): seq<TabletMutation>
    decreases |tablets|
  {
    if tablets == [] then []
    else
      var last := tablets[|tablets| - 1];
      UnsuspendPlan(tablets[..|tablets| - 1]) + (if Selected(last) then [UnsuspendMutation(last)] else [])
  }

  /** The tablets `unsuspend` selects, in input order. */
  function SelectedTablets(tablets: seq<TabletMetadata>): (s: seq<TabletMetadata>)
    decreases |tablets|
  {
    if tablets == [] then []
    else
      var last := tablets[|tablets| - 1];
      SelectedTablets(tablets[..|tablets| - 1]) + (if Selected(last) then [last] else [])
  }

  /** The plan is the selected tablets, in input order, each mapped to its mutation:
      exactly one mutation per tablet whose suspension is null and none for the others. */
  lemma {:induction false} UnsuspendPlanSelects(tablets: seq<TabletMetadata>)
    ensures |UnsuspendPlan(tablets)| == |SelectedTablets(tablets)|
    ensures forall j :: 0 <= j < |UnsuspendPlan(tablets)| ==>
      UnsuspendPlan(tablets)[j] == UnsuspendMutation(SelectedTablets(tablets)[j])
    decreases |tablets|
  {
    if tablets != [] {
      UnsuspendPlanSelects(tablets[..|tablets| - 1]);
    }
  }

  /** Selection drops exactly the tablets that carry a suspension: what it keeps comes from
      the input, and every unsuspended tablet is kept once per occurrence. */
  lemma {:induction false} SelectedTabletsFilter(tablets: seq<TabletMetadata>)
    ensures forall j :: 0 <= j < |SelectedTablets(tablets)| ==>
      SelectedTablets(tablets)[j] in tablets && Selected(SelectedTablets(tablets)[j])
    ensures forall tm :: tm in tablets && !Selected(tm) ==> tm !in SelectedTablets(tablets)
    ensures forall tm ::
      multiset(SelectedTablets(tablets))[tm] == (if Selected(tm) then multiset(tablets)[tm] else 0)
    decreases |tablets|
  {
    if tablets != [] {
      var init := tablets[..|tablets| - 1];
      var last := tablets[|tablets| - 1];
      assert tablets == init + [last];
      SelectedTabletsFilter(init);
    }
  }

  /** Selection keeps input order: selecting from a batch split in two selects from the
      first part, then from the second. */
  lemma {:induction false} SelectedTabletsAppend(a: seq<TabletMetadata>, b: seq<TabletMetadata>)
    ensures SelectedTablets(a + b) == SelectedTablets(a) + SelectedTablets(b)
    decreases |b|
  {
    if b != [] {
      var init := b[..|b| - 1];
      var last := b[|b| - 1];
      assert (a + b)[..|a + b| - 1] == a + init;
      SelectedTabletsAppend(a, init);
    } else {
      assert a + b == a;
    }
  }

  /** A batch over tablets that all carry a suspension submits nothing. */
  lemma {:induction false} UnsuspendPlanEmptyWhenAllSuspended(tablets: seq<TabletMetadata>)
    requires forall i :: 0 <= i < |tablets| ==> tablets[i].suspend.Some?
    ensures UnsuspendPlan(tablets) == []
    decreases |tablets|
  {
    if tablets != [] {
      UnsuspendPlanEmptyWhenAllSuspended(tablets[..|tablets| - 1]);
    }
  }

  /** The preconditions of a tablet's unsuspend mutation hold of the stored metadata
      exactly when no operation is recorded there and the stored prevEndRow is still the one
      the mutation was built from: a tablet that was split, merged or given an operation since
      it was read is rejected. */
  lemma UnsuspendConditionsHold(tm: TabletMetadata, stored: TabletMetadata)
    ensures SatisfiesAll(stored, UnsuspendMutation(tm).conditions) <==>
      stored.operation.None? && stored.extent.prevEndRow == tm.extent.prevEndRow
  {
    var cs := UnsuspendMutation(tm).conditions;
    if stored.operation.None? && stored.extent.prevEndRow == tm.extent.prevEndRow {
      forall i | 0 <= i < |cs| ensures Satisfies(stored, cs[i]) { }
    } else if stored.operation.Some? {
      assert !Satisfies(stored, cs[0]);
    } else {
      assert !Satisfies(stored, cs[1]);
    }
  }

  /** Whatever the suspension was, an unsuspend mutation's delta leaves none, so its
      post-check accepts the written metadata. */
  lemma UnsuspendPostCheckHolds(tm: TabletMetadata, stored: TabletMetadata)
    ensures ApplyDeltas(stored.suspend, UnsuspendMutation(tm).deltas) == None
    ensures Holds(UnsuspendMutation(tm).postCheck,
      stored.(suspend := ApplyDeltas(stored.suspend, UnsuspendMutation(tm).deltas)))
  {
  }

  /** Stream.anyMatch over the statuses of a processed batch: whether some mutation was
      not accepted. */
  method AnyUnaccepted(results: map<KeyExtent, Status>) returns (found: bool)
    ensures found <==> !AllAccepted(results)
  {
    var pending := results.Keys;
    found := false;
    while pending != {} && !found
      invariant pending <= results.Keys
      invariant found ==> !AllAccepted(results)
      invariant !found ==> forall e :: e in results && e !in pending ==> results[e] == Accepted
      decreases pending
    {
      var e :| e in pending;
      found := results[e] != Accepted;
      pending := pending - {e};
    }
  }

  /** `unsuspend`: submits one mutation per tablet whose suspension is null, in input order,
      then asks `ample` to process the batch. It ends normally exactly when the mutator
      reports a status for the batch and every status is `Accepted`; a status other than
      `Accepted` and any runtime failure both end in a `DistributedStoreException`.
      The submitted batch does not depend on the outcome: accepted mutations are not undone. */
  method Unsuspend(tablets: seq<TabletMetadata>, ample: seq<TabletMutation> -> ProcessResult)
    returns (submitted: seq<TabletMutation>, r: Outcome<DistributedStoreException>)
    ensures submitted == UnsuspendPlan(tablets)
    ensures r.Pass? <==> ample(submitted).Processed? && AllAccepted(ample(submitted).results)
    ensures ample(submitted).Raised? ==> r == Fail(Wrapped(ample(submitted).cause))
    ensures ample(submitted).Processed? && !AllAccepted(ample(submitted).results)
      ==> r == Fail(ConditionsNotSatisfied)
    ensures submitted == [] && ample(submitted).Processed? && ReportsOnlySubmitted(submitted, ample(submitted))
      ==> r == Pass
  {
    submitted := [];
    var i := 0;
    while i < |tablets|
      invariant 0 <= i <= |tablets|
      invariant submitted == UnsuspendPlan(tablets[..i])
    {
      var tm := tablets[i];
      assert tablets[..i + 1][..i] == tablets[..i];
      if tm.suspend.Some? {
        i := i + 1;
        continue;
      }
      submitted := submitted + [UnsuspendMutation(tm)];
      i := i + 1;
    }
    assert tablets[..i] == tablets;
    match ample(submitted)
    case Raised(cause) =>
      r := Fail(Wrapped(cause));
    case Processed(results) =>
      var unaccepted := AnyUnaccepted(results);
      if unaccepted {
        r := Fail(ConditionsNotSatisfied);
      } else {
        r := Pass;
      }
  }

  // ---------------------------------------------------------------------------
  // Suspension decision

  /** The calls `processSuspension` makes on the tablet's mutator, in order: put a
      suspension naming the current server when the tablet is hosted and the timestamp is
      not negative; delete the suspension when there is one and the timestamp is negative. */
  function ProcessSuspension(tm: TabletMetadata, suspensionTimestamp: i64): (deltas: seq<SuspensionDelta>)
    ensures |deltas| <= 1
    ensures (exists s, t :: PutSuspension(s, t) in deltas) <==> tm.HasCurrent() && suspensionTimestamp >= 0
    ensures tm.HasCurrent() && suspensionTimestamp >= 0 ==>
      deltas == [PutSuspension(tm.location.value.server, suspensionTimestamp)]
    ensures DeleteSuspension in deltas <==> tm.suspend.Some? && suspensionTimestamp < 0
    ensures deltas == [] <==> !(tm.HasCurrent() && suspensionTimestamp >= 0) && !(tm.suspend.Some? && suspensionTimestamp < 0)
  {
    var put := if tm.HasCurrent() && suspensionTimestamp >= 0
      then [PutSuspension(tm.location.value.server, suspensionTimestamp)] else [];
    var delete := if tm.suspend.Some? && suspensionTimestamp < 0 then [DeleteSuspension] else [];
    put + delete
  }

  /** The suspension a tablet ends up with once `processSuspension`'s calls are applied:
      the current server and the timestamp when hosted and the timestamp is not negative;
      none when the timestamp is negative; otherwise the suspension it already had. */
  lemma ProcessSuspensionEffect(tm: TabletMetadata, suspensionTimestamp: i64)
    ensures ApplyDeltas(tm.suspend, ProcessSuspension(tm, suspensionTimestamp)) ==
      if tm.HasCurrent() && suspensionTimestamp >= 0
      then Some(SuspendingTServer(tm.location.value.server, suspensionTimestamp))
      else if suspensionTimestamp < 0 then None
      else tm.suspend
  {
  }
}
