/**
 * Client code: what a caller can conclude about the export server from the
 * methods' contracts alone.
 */
module Scenarios {
  import opened Rows
  import opened Delta
  import opened Pipeline
  import opened Server

  /**
   * A row is exported by a full export, a delta export right after finds
   * nothing, and once the row is soft-deleted the next delta export carries
   * it as a DELETE and moves the watermark to the deletion time.
   */
  method DeletionReachesConsumer()
  {
    var ada := Row(1, "Ada", "ada@example.org", 10, 10, false);
    var server := new ExportServer([ada]);

    var early := server.IncrementalExport(Some("c1"), "0", NoFault);
    assert early == NoWatermark;
    var anonymous := server.DeltaExport(Some(""), "0", NoFault);
    assert anonymous == MissingConsumer;

    var full := server.StartFullExport(Some("c1"), "1", NoFault);
    assert LiveRows([ada]) == [ada];
    assert full == Exported(1);
    assert server.watermarks["c1"] == Some(10);
    assert server.artifacts[ArtifactName("full", "c1", "1")] == RowFile([ada]);

    var quiet := server.DeltaExport(Some("c1"), "2", NoFault);
    assert DeltaWindow([ada], Some(10)) == [];
    assert quiet == NoChanges;

    var deleted := server.SoftDelete(1, 30, false);
    var gone := ada.(isDeleted := true, updatedAt := 30);
    assert server.users == [gone];

    var failed := server.DeltaExport(Some("c1"), "3", WriteFault);
    assert DeltaWindow([gone], Some(10)) == [gone];
    assert failed == Failed(WriteFault);
    assert server.watermarks["c1"] == Some(10);

    var delta := server.DeltaExport(Some("c1"), "4", NoFault);
    assert delta == Exported(1);
    assert ToRecords([gone]) == [DeltaRecord(Delete, gone)];
    assert server.artifacts[ArtifactName("delta", "c1", "4")] == DeltaFile([DeltaRecord(Delete, gone)]);
    assert MaxUpdatedAt([gone]) == Some(30);
    assert server.watermarks["c1"] == Some(30);

    var reply := server.GetWatermark(Some("c1"), false);
    assert reply == Found("c1", Some(30));
  }
}
