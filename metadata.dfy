/** The tablet metadata entities that the tablet state store reads. Only the fields the
    store looks at are modelled; everything else a tablet's metadata row holds is omitted. */
module Metadata {
  import opened Wrappers

  /** Java's `long`: the type of suspension timestamps. */
  newtype i64 = x: int | -0x8000_0000_0000_0000 <= x < 0x8000_0000_0000_0000

  /** A row key of the metadata table. */
  type Row = seq<bv8>

  /** The metadata level a store manages: root tablet, metadata tablets or user tablets. */
  datatype DataLevel = Root | Metadata | User

  /** Identifies a tablet: its table and the row range (prevEndRow, endRow]; an absent row
      is the open end of the table. */
  datatype KeyExtent = KeyExtent(tableId: string, endRow: Option<Row>, prevEndRow: Option<Row>)

  /** A tablet server process: its host and port, and the session of its lock. */
  datatype TServerInstance = TServerInstance(hostPort: string, session: string)

  /** Whether a tablet is hosted on a server (`Current`) or only assigned to it (`Future`). */
  datatype LocationType = Current | Future

  datatype Location = Location(server: TServerInstance, kind: LocationType)

  /** The suspension mark: the server the tablet was last on and when it was suspended. */
  datatype SuspendingTServer = SuspendingTServer(server: TServerInstance, suspensionTime: i64)

  /** A FATE operation recorded against a tablet. */
  type OperationId = string

  /** The part of a tablet's metadata row that the state store reads and writes. */
  datatype TabletMetadata = TabletMetadata(
    extent: KeyExtent,
    location: Option<Location>,
    suspend: Option<SuspendingTServer>,
    operation: Option<OperationId>)
  {
    /** True when the tablet has a location and that location is a current one. */
    predicate HasCurrent() {
      location.Some? && location.value.kind == Current
    }
  }

  /** A notification that a tablet needs to be looked at again by the manager. */
  datatype TabletManagement = TabletManagement(tablet: TabletMetadata)
}
