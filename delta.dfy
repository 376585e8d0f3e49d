/**
 * Change classification for delta exports: every fetched row becomes a
 * record holding the row unchanged plus the inferred operation.
 */
module Delta {
  import opened Rows

  datatype Operation = Insert | Update | Delete

  /** A delta artifact line: `{ operation, ...user }`. */
  datatype DeltaRecord = DeltaRecord(operation: Operation, row: Row)

  /**
   * The deletion flag wins over the timestamps; a live row whose two
   * timestamps are equal was inserted, any other live row was updated.
   */
  function Classify(row: Row): (op: Operation)
    ensures op == Delete <==> row.isDeleted
    ensures op == Insert <==> !row.isDeleted && row.createdAt == row.updatedAt
    ensures op == Update <==> !row.isDeleted && row.createdAt != row.updatedAt
  {
    if row.isDeleted then Delete
    else if row.createdAt == row.updatedAt then Insert
    else Update
  }

  /** `rows.map(...)`: one record per row, in the same order. */
  function ToRecords(rows: seq<Row>): (records: seq<DeltaRecord>)
    ensures |records| == |rows|
    ensures forall i :: 0 <= i < |rows| ==>
      records[i].row == rows[i] && records[i].operation == Classify(rows[i])
  {
    if rows == [] then [] else [DeltaRecord(Classify(rows[0]), rows[0])] + ToRecords(rows[1..])
  }

  /** The row columns of a delta artifact, with the operation column dropped. */
  function RowsOf(records: seq<DeltaRecord>): (rows: seq<Row>)
    ensures |rows| == |records|
    ensures forall i :: 0 <= i < |records| ==> rows[i] == records[i].row
  {
    if records == [] then [] else [records[0].row] + RowsOf(records[1..])
  }

  /** Dropping the operation column gives back exactly the fetched rows. */
  lemma RowsOfRecords(rows: seq<Row>)
    ensures RowsOf(ToRecords(rows)) == rows
  {
  }
}
