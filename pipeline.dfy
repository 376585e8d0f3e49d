/**
 * What one export run does, as a value: given the `users` table, the
 * `watermarks` table and the output directory before the run, the outcome,
 * the two tables after it and the effects that became durable, in order.
 * The export server's methods are proved to do exactly this; the lemmas
 * below state what the runs guarantee.
 */
module Pipeline {
  import opened Rows
  import opened Delta

  /** The step of a run that fails, if any. */
  datatype Fault =
    | NoFault     // every statement succeeds
    | ReadFault   // the watermark or row SELECT fails
    | WriteFault  // `writeRecords` rejects: no artifact
    | StoreFault  // a statement after the write fails (MAX, upsert/UPDATE, COMMIT)

  /** The contents of one output file. */
  datatype Artifact = RowFile(rows: seq<Row>) | DeltaFile(records: seq<DeltaRecord>)

  /** How a request or export job ended. */
  datatype Outcome =
    | MissingConsumer          // no X-Consumer-ID: rejected before any work
    | NoWatermark              // incremental/delta before any full export
    | NoChanges                // the change window is empty
    | Exported(rowsExported: nat)
    | Failed(fault: Fault)

  /** An effect that outlives the run. */
  datatype Effect =
    | ArtifactWritten(filename: string)
    | WatermarkCommitted(consumerId: string, lastExportedAt: Option<int>)

  type Watermarks = map<string, Option<int>>
  type Files = map<string, Artifact>

  /** The result of one run. */
  datatype Run = Run(outcome: Outcome, watermarks: Watermarks, artifacts: Files, effects: seq<Effect>)

  /** An absent or empty X-Consumer-ID header names no consumer. */
  function ConsumerIdOf(header: Option<string>): (c: Option<string>)
    ensures c.Some? <==> header.Some? && header.value != ""
    ensures c.Some? ==> c.value == header.value
  {
    if header.Some? && header.value != "" then header else None
  }

  /** `<kind>_<consumerId>_<stamp>.csv`. */
  function ArtifactName(kind: string, consumerId: string, stamp: string): (name: string)
    ensures |name| == |kind| + |consumerId| + |stamp| + 6
    ensures name[..|kind| + 1] == kind + "_"
    ensures name[|kind| + 1..|kind| + 1 + |consumerId|] == consumerId
    ensures name[|kind| + 1 + |consumerId|..|name| - 4] == "_" + stamp
    ensures name[|name| - 4..] == ".csv"
  {
    kind + "_" + consumerId + "_" + stamp + ".csv"
  }

  /**
   * The stamp keeps artifacts apart: two runs of the same kind for the same
   * consumer with different stamps write different files.
   */
  lemma ArtifactNamesDiffer(kind: string, consumerId: string, stamp1: string, stamp2: string)
    requires stamp1 != stamp2
    ensures ArtifactName(kind, consumerId, stamp1) != ArtifactName(kind, consumerId, stamp2)
  {
    assert stamp1 == ("_" + stamp1)[1..];
    assert stamp2 == ("_" + stamp2)[1..];
  }

  /**
   * `fullExport`: BEGIN; write the live rows; upsert the consumer's
   * watermark to MAX(updated_at) over the live rows; COMMIT. A failure at
   * any step rolls back, so only a committed run changes the watermarks.
   */
  function FullRun(users: seq<Row>, marks: Watermarks, files: Files,
                   consumerId: string, filename: string, fault: Fault): Run
  {
    if fault == ReadFault then Run(Failed(ReadFault), marks, files, [])
    else
      var rows := LiveRows(users);
      if fault == WriteFault then Run(Failed(WriteFault), marks, files, [])
      else
        var written := files[filename := RowFile(rows)];
        var latest := MaxUpdatedAt(LiveRows(users));
        if fault == StoreFault then Run(Failed(StoreFault), marks, written, [ArtifactWritten(filename)])
        else Run(Exported(|rows|), marks[consumerId := latest], written,
                 [ArtifactWritten(filename), WatermarkCommitted(consumerId, latest)])
  }

  /**
   * The job of `POST /exports/incremental`: look up the watermark `w`
   * (stop if there is none), fetch the live rows updated after `w` (stop if
   * there are none), write them, then set the watermark to MAX(updated_at)
   * over ALL rows updated after `w`. No transaction: a failure after the
   * write leaves the artifact in place and the watermark as it was.
   */
  function IncrementalRun(users: seq<Row>, marks: Watermarks, files: Files,
                          consumerId: string, filename: string, fault: Fault): Run
  {
    if fault == ReadFault then Run(Failed(ReadFault), marks, files, [])
    else if consumerId !in marks then Run(NoWatermark, marks, files, [])
    else
      var w := marks[consumerId];
      var rows := IncrementalWindow(users, w);
      if |rows| == 0 then Run(NoChanges, marks, files, [])
      else if fault == WriteFault then Run(Failed(WriteFault), marks, files, [])
      else
        var written := files[filename := RowFile(rows)];
        if fault == StoreFault then Run(Failed(StoreFault), marks, written, [ArtifactWritten(filename)])
        else
          var latest := MaxUpdatedAt(DeltaWindow(users, w));
          Run(Exported(|rows|), marks[consumerId := latest], written,
              [ArtifactWritten(filename), WatermarkCommitted(consumerId, latest)])
  }

  /**
   * The job of `POST /exports/delta`: as the incremental job, but the
   * window keeps deleted rows and each row is written with its operation.
   */
  function DeltaRun(users: seq<Row>, marks: Watermarks, files: Files,
                    consumerId: string, filename: string, fault: Fault): Run
  {
    if fault == ReadFault then Run(Failed(ReadFault), marks, files, [])
    else if consumerId !in marks then Run(NoWatermark, marks, files, [])
    else
      var w := marks[consumerId];
      var rows := DeltaWindow(users, w);
      if |rows| == 0 then Run(NoChanges, marks, files, [])
      else
        var records := ToRecords(rows);
        if fault == WriteFault then Run(Failed(WriteFault), marks, files, [])
        else
          var written := files[filename := DeltaFile(records)];
          if fault == StoreFault then Run(Failed(StoreFault), marks, written, [ArtifactWritten(filename)])
          else
            var latest := MaxUpdatedAt(DeltaWindow(users, w));
            Run(Exported(|records|), marks[consumerId := latest], written,
                [ArtifactWritten(filename), WatermarkCommitted(consumerId, latest)])
  }

  // ---------------------------------------------------------------------
  // Guarantees shared by all three runs
  // ---------------------------------------------------------------------

  /** Every watermark commit is preceded by an artifact write. */
  ghost predicate WriteBeforeCommit(effects: seq<Effect>)
  {
    forall i :: 0 <= i < |effects| && effects[i].WatermarkCommitted? ==>
      exists j :: 0 <= j < i && effects[j].ArtifactWritten?
  }

  /** Only `consumerId`'s entry may differ between the two tables. */
  ghost predicate OthersUntouched(before: Watermarks, after: Watermarks, consumerId: string)
  {
    forall k :: k != consumerId ==>
      (k in after <==> k in before) && (k in before ==> after[k] == before[k])
  }

  /**
   * A run that ends in anything but an export or a failed watermark store
   * leaves no trace; a run that is not exported leaves the watermarks as
   * they were; no run touches another consumer's watermark, and no run
   * commits a watermark without first writing its artifact.
   */
  ghost predicate Safe(r: Run, marks: Watermarks, files: Files, consumerId: string, filename: string)
  {
    && OthersUntouched(marks, r.watermarks, consumerId)
    && WriteBeforeCommit(r.effects)
    && (!r.outcome.Exported? ==> r.watermarks == marks)
    && (r.outcome.Exported? ==>
          && consumerId in r.watermarks && filename in r.artifacts
          && r.effects == [ArtifactWritten(filename), WatermarkCommitted(consumerId, r.watermarks[consumerId])])
    && (!r.outcome.Exported? && r.outcome != Failed(StoreFault) ==> r.artifacts == files && r.effects == [])
    && (r.outcome == Failed(StoreFault) ==> r.effects == [ArtifactWritten(filename)])
  }

  lemma WriteThenCommit(filename: string, consumerId: string, mark: Option<int>)
    ensures WriteBeforeCommit([ArtifactWritten(filename), WatermarkCommitted(consumerId, mark)])
  {
    var effects := [ArtifactWritten(filename), WatermarkCommitted(consumerId, mark)];
    assert effects[0].ArtifactWritten?;
  }

  lemma FullRunSafe(users: seq<Row>, marks: Watermarks, files: Files,
                    consumerId: string, filename: string, fault: Fault)
    ensures Safe(FullRun(users, marks, files, consumerId, filename, fault), marks, files, consumerId, filename)
  {
    WriteThenCommit(filename, consumerId, MaxUpdatedAt(LiveRows(users)));
  }

  lemma IncrementalRunSafe(users: seq<Row>, marks: Watermarks, files: Files,
                           consumerId: string, filename: string, fault: Fault)
    ensures Safe(IncrementalRun(users, marks, files, consumerId, filename, fault), marks, files, consumerId, filename)
  {
    if consumerId in marks {
      WriteThenCommit(filename, consumerId, MaxUpdatedAt(DeltaWindow(users, marks[consumerId])));
    }
  }

  lemma DeltaRunSafe(users: seq<Row>, marks: Watermarks, files: Files,
                     consumerId: string, filename: string, fault: Fault)
    ensures Safe(DeltaRun(users, marks, files, consumerId, filename, fault), marks, files, consumerId, filename)
  {
    if consumerId in marks {
      WriteThenCommit(filename, consumerId, MaxUpdatedAt(DeltaWindow(users, marks[consumerId])));
    }
  }

  // ---------------------------------------------------------------------
  // Full export
  // ---------------------------------------------------------------------

  /**
   * A committed full export writes exactly the live rows, reports their
   * number, and upserts the consumer's watermark to their maximum
   * `updatedAt` (NULL when there are none), creating or overwriting the
   * entry whatever it held before. A failed one leaves the watermarks as
   * they were, and leaves the artifact behind only when the write itself
   * succeeded.
   */
  lemma FullRunOutcome(users: seq<Row>, marks: Watermarks, files: Files,
                       consumerId: string, filename: string, fault: Fault)
    ensures var r := FullRun(users, marks, files, consumerId, filename, fault);
      && r.outcome == (if fault == NoFault then Exported(|LiveRows(users)|) else Failed(fault))
      && (fault == NoFault ==>
            && consumerId in r.watermarks
            && r.watermarks[consumerId] == MaxUpdatedAt(LiveRows(users))
            && (r.watermarks[consumerId].None? <==> forall x :: x in users ==> x.isDeleted))
      && (fault != NoFault ==> r.watermarks == marks)
      && (fault in {NoFault, StoreFault} ==> r.artifacts == files[filename := RowFile(LiveRows(users))])
      && (fault in {ReadFault, WriteFault} ==> r.artifacts == files)
  {
  }

  /**
   * Running the full export twice with no change to the rows exports the
   * same rows and leaves the same watermark.
   */
  lemma FullRunRepeatable(users: seq<Row>, marks: Watermarks, files: Files,
                          consumerId: string, first: string, second: string)
    ensures
      var r1 := FullRun(users, marks, files, consumerId, first, NoFault);
      var r2 := FullRun(users, r1.watermarks, r1.artifacts, consumerId, second, NoFault);
      && r2.watermarks == r1.watermarks
      && r2.artifacts[second] == r1.artifacts[first]
      && r2.outcome == r1.outcome
  {
  }

  /**
   * The upsert does not compare with the stored value: a full export after
   * the most recently updated live row was soft-deleted moves the
   * watermark backwards.
   */
  lemma FullRunCanRegress()
    ensures
      var before := [Row(1, "a", "a@example.org", 10, 10, false),
                     Row(2, "b", "b@example.org", 20, 20, false)];
      var r1 := FullRun(before, map[], map[], "c1", "full_c1_1.csv", NoFault);
      var r2 := FullRun(SoftDeleted(before, 2, 30), r1.watermarks, r1.artifacts, "c1", "full_c1_2.csv", NoFault);
      && r1.watermarks["c1"] == Some(20)
      && r2.watermarks["c1"] == Some(10)
  {
  }

  // ---------------------------------------------------------------------
  // Incremental and delta exports
  // ---------------------------------------------------------------------

  /**
   * What an incremental run writes and where it moves the watermark: the
   * artifact holds exactly the live rows updated after the old watermark,
   * the new watermark is the largest `updatedAt` of any row, deleted ones
   * included, updated after the old one, and it is strictly larger.
   */
  lemma IncrementalRunOutcome(users: seq<Row>, marks: Watermarks, files: Files,
                              consumerId: string, filename: string, fault: Fault)
    ensures var r := IncrementalRun(users, marks, files, consumerId, filename, fault);
      && (fault == ReadFault ==> r.outcome == Failed(ReadFault))
      && (fault != ReadFault && consumerId !in marks ==> r.outcome == NoWatermark)
      && (fault != ReadFault && consumerId in marks && IncrementalWindow(users, marks[consumerId]) == [] ==>
            r.outcome == NoChanges)
      && (fault == NoFault && consumerId in marks && IncrementalWindow(users, marks[consumerId]) != [] ==>
            r.outcome == Exported(|IncrementalWindow(users, marks[consumerId])|))
      && (fault in {WriteFault, StoreFault} && consumerId in marks && IncrementalWindow(users, marks[consumerId]) != [] ==>
            r.outcome == Failed(fault))
      && (r.outcome.Exported? || r.outcome == Failed(StoreFault) ==>
            && consumerId in marks
            && r.artifacts == files[filename := RowFile(IncrementalWindow(users, marks[consumerId]))])
      && (r.outcome.Exported? ==>
            && fault == NoFault
            && r.outcome.rowsExported == |IncrementalWindow(users, marks[consumerId])|
            && r.watermarks == marks[consumerId := MaxUpdatedAt(DeltaWindow(users, marks[consumerId]))]
            && marks[consumerId].Some? && r.watermarks[consumerId].Some?
            && r.watermarks[consumerId].value > marks[consumerId].value)
  {
    if fault == NoFault && consumerId in marks && IncrementalWindow(users, marks[consumerId]) != [] {
      IncrementalInsideDelta(users, marks[consumerId]);
      CandidateAdvances(users, marks[consumerId]);
    }
  }

  /**
   * What a delta run writes and where it moves the watermark: one record
   * per row updated after the old watermark, deleted ones included, in the
   * fetched order, each carrying the row unchanged and its classified
   * operation; the watermark rises strictly to their largest `updatedAt`.
   */
  lemma DeltaRunOutcome(users: seq<Row>, marks: Watermarks, files: Files,
                        consumerId: string, filename: string, fault: Fault)
    ensures var r := DeltaRun(users, marks, files, consumerId, filename, fault);
      && (fault == ReadFault ==> r.outcome == Failed(ReadFault))
      && (fault != ReadFault && consumerId !in marks ==> r.outcome == NoWatermark)
      && (fault != ReadFault && consumerId in marks && DeltaWindow(users, marks[consumerId]) == [] ==>
            r.outcome == NoChanges)
      && (fault == NoFault && consumerId in marks && DeltaWindow(users, marks[consumerId]) != [] ==>
            r.outcome == Exported(|DeltaWindow(users, marks[consumerId])|))
      && (fault in {WriteFault, StoreFault} && consumerId in marks && DeltaWindow(users, marks[consumerId]) != [] ==>
            r.outcome == Failed(fault))
      && (r.outcome.Exported? || r.outcome == Failed(StoreFault) ==>
            && consumerId in marks
            && var rows := DeltaWindow(users, marks[consumerId]);
               && r.artifacts == files[filename := DeltaFile(ToRecords(rows))]
               && RowsOf(ToRecords(rows)) == rows)
      && (r.outcome.Exported? ==>
            && fault == NoFault
            && r.outcome.rowsExported == |DeltaWindow(users, marks[consumerId])|
            && r.watermarks == marks[consumerId := MaxUpdatedAt(DeltaWindow(users, marks[consumerId]))]
            && marks[consumerId].Some? && r.watermarks[consumerId].Some?
            && r.watermarks[consumerId].value > marks[consumerId].value)
  {
  }

  /**
   * Once an incremental run has been exported, running it again with no
   * change to the rows finds nothing; the same holds for a delta run,
   * which also finds nothing after an exported incremental run.
   */
  lemma IncrementalRunCatchesUp(users: seq<Row>, marks: Watermarks, files: Files,
                                consumerId: string, first: string, second: string, fault: Fault)
    requires IncrementalRun(users, marks, files, consumerId, first, fault).outcome.Exported?
    ensures var r := IncrementalRun(users, marks, files, consumerId, first, fault);
      && IncrementalRun(users, r.watermarks, r.artifacts, consumerId, second, NoFault).outcome == NoChanges
      && DeltaRun(users, r.watermarks, r.artifacts, consumerId, second, NoFault).outcome == NoChanges
  {
    IncrementalInsideDelta(users, marks[consumerId]);
    CaughtUp(users, marks[consumerId]);
  }

  lemma DeltaRunCatchesUp(users: seq<Row>, marks: Watermarks, files: Files,
                          consumerId: string, first: string, second: string, fault: Fault)
    requires DeltaRun(users, marks, files, consumerId, first, fault).outcome.Exported?
    ensures var r := DeltaRun(users, marks, files, consumerId, first, fault);
      && DeltaRun(users, r.watermarks, r.artifacts, consumerId, second, NoFault).outcome == NoChanges
      && IncrementalRun(users, r.watermarks, r.artifacts, consumerId, second, NoFault).outcome == NoChanges
  {
    CaughtUp(users, marks[consumerId]);
  }

  /**
   * After a full export of a table with no live rows the watermark is NULL,
   * and from then on incremental and delta runs find nothing.
   */
  lemma NullWatermarkStalls(users: seq<Row>, marks: Watermarks, files: Files,
                            consumerId: string, filename: string, fault: Fault)
    requires consumerId in marks && marks[consumerId].None?
    ensures IncrementalRun(users, marks, files, consumerId, filename, fault).outcome in {NoChanges, Failed(ReadFault)}
    ensures DeltaRun(users, marks, files, consumerId, filename, fault).outcome in {NoChanges, Failed(ReadFault)}
  {
    NullMarkSeesNothing(users);
  }
}
