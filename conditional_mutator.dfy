/** The vocabulary of Ample's conditional tablet mutator, as data: what a caller asks for
    (preconditions, a delta, a post-check per tablet) and what the mutator reports back.
    How the mutator checks conditions and writes rows is not part of this model; its
    answer is supplied to the store from outside. */
module ConditionalMutator {
  import opened Wrappers
  import opened Metadata

  /** A precondition on the tablet's stored metadata. */
  datatype Condition =
    | AbsentOperation                          // no operation is recorded on the tablet
    | PrevEndRowEquals(prevEndRow: Option<Row>) // the stored prevEndRow is the given one

  /** A change to the suspension column. */
  datatype SuspensionDelta =
    | PutSuspension(server: TServerInstance, suspensionTime: i64)
    | DeleteSuspension

  /** The predicate handed to `submit`: checked against the tablet's metadata after the write. */
  datatype PostCheck = SuspendIsNull

  /** One submitted conditional mutation: the tablet it targets, its preconditions in the
      order they were declared, its deltas in order, and its post-check. */
  datatype TabletMutation = TabletMutation(
    extent: KeyExtent,
    conditions: seq<Condition>,
    deltas: seq<SuspensionDelta>,
    postCheck: PostCheck)

  /** The status of one conditional mutation once processed. */
  datatype Status = Accepted | Rejected | Unknown

  /** A runtime failure raised by the mutator, with its message. */
  type RuntimeError = string

  /** How a mutator session ends: `process()` gives the status of every submitted mutation
      keyed by extent, or a runtime exception is thrown somewhere in the session (opening
      it, submitting, processing, or closing it). */
  datatype ProcessResult =
    | Processed(results: map<KeyExtent, Status>)
    | Raised(cause: RuntimeError)

  /** The extents a batch of mutations targets. */
  function Extents(batch: seq<TabletMutation>): set<KeyExtent> {
    set m | m in batch :: m.extent
  }

  /** The mutator reports statuses only for the tablets that were submitted to it. */
  predicate ReportsOnlySubmitted(batch: seq<TabletMutation>, p: ProcessResult) {
    p.Processed? ==> p.results.Keys <= Extents(batch)
  }

  /** Whether the tablet's stored metadata meets a precondition. */
  predicate Satisfies(tm: TabletMetadata, c: Condition) {
    match c
    case AbsentOperation => tm.operation.None?
    case PrevEndRowEquals(p) => tm.extent.prevEndRow == p
  }

  predicate SatisfiesAll(tm: TabletMetadata, cs: seq<Condition>) {
    forall i :: 0 <= i < |cs| ==> Satisfies(tm, cs[i])
  }

  /** The suspension column after applying the deltas in order. */
  function ApplyDeltas(suspend: Option<SuspendingTServer>, deltas: seq<SuspensionDelta>): Option<SuspendingTServer>
    decreases |deltas|
  {
    if deltas == [] then suspend
    else
      var next := match deltas[0]
        case PutSuspension(server, t) => Some(SuspendingTServer(server, t))
        case DeleteSuspension => None;
      ApplyDeltas(next, deltas[1..])
  }

  /** Whether a post-check accepts the tablet's metadata. */
  predicate Holds(check: PostCheck, tm: TabletMetadata) {
    match check
    case SuspendIsNull => tm.suspend.None?
  }

  /** True when every status in the result map is `Accepted` (vacuously so for an empty map). */
  predicate AllAccepted(results: map<KeyExtent, Status>) {
    forall e :: e in results ==> results[e] == Accepted
  }
}
