/**
 * The export server: the `users` table, the `watermarks` table and the
 * output directory, with the full, incremental and delta exports, soft
 * delete and watermark lookup. Each export method works step by step as the
 * handler does and is proved to do exactly what its run in `Pipeline`
 * describes; `journal` records, in order, the effects that became durable.
 */
module Server {
  import opened Rows
  import opened Delta
  import opened Pipeline

  /** The answer of `GET /exports/watermark`. */
  datatype WatermarkReply =
    | HeaderMissing                                          // 400
    | NotFound                                               // 404
    | Found(consumerId: string, lastExportedAt: Option<int>) // 200
    | LookupFailed                                           // 500

  class ExportServer {
    var users: seq<Row>
    var watermarks: Watermarks
    var artifacts: Files
    ghost var journal: seq<Effect>

    constructor (table: seq<Row>)
      ensures users == table
      ensures watermarks == map[] && artifacts == map[] && journal == []
    {
      users := table;
      watermarks := map[];
      artifacts := map[];
      journal := [];
    }

    /** Whether the server's state is what `r` says a run left. */
    ghost predicate After(r: Run, journal0: seq<Effect>)
      reads this
    {
      watermarks == r.watermarks && artifacts == r.artifacts && journal == journal0 + r.effects
    }

    /**
     * `fullExport`: in one transaction, write the live rows to `filename`,
     * upsert the consumer's watermark, COMMIT; on any failure ROLLBACK.
     */
    method FullExport(consumerId: string, filename: string, fault: Fault) returns (outcome: Outcome)
      modifies this
      ensures users == old(users)
      ensures var r := FullRun(old(users), old(watermarks), old(artifacts), consumerId, filename, fault);
        outcome == r.outcome && After(r, old(journal))
    {
      var committed := watermarks;  // BEGIN
      if fault == ReadFault {
        watermarks := committed;  // ROLLBACK
        return Failed(ReadFault);
      }
      var rows := LiveRows(users);
      if fault == WriteFault {
        watermarks := committed;
        return Failed(WriteFault);
      }
      artifacts := artifacts[filename := RowFile(rows)];
      journal := journal + [ArtifactWritten(filename)];
      var latest := MaxUpdatedAt(LiveRows(users));
      watermarks := watermarks[consumerId := latest];  // the upsert, inside the transaction
      if fault == StoreFault {
        watermarks := committed;
        return Failed(StoreFault);
      }
      journal := journal + [WatermarkCommitted(consumerId, latest)];  // COMMIT
      return Exported(|rows|);
    }

    /**
     * `POST /exports/full`: reject a request without a consumer id, else run
     * the full export into `full_<consumerId>_<stamp>.csv`.
     */
    method StartFullExport(header: Option<string>, stamp: string, fault: Fault) returns (outcome: Outcome)
      modifies this
      ensures users == old(users)
      ensures ConsumerIdOf(header).None? ==> outcome == MissingConsumer && unchanged(this)
      ensures ConsumerIdOf(header).Some? ==>
        var c := ConsumerIdOf(header).value;
        var r := FullRun(old(users), old(watermarks), old(artifacts), c, ArtifactName("full", c, stamp), fault);
        outcome == r.outcome && After(r, old(journal))
    {
      var consumer := ConsumerIdOf(header);
      if consumer.None? {
        return MissingConsumer;
      }
      var c := consumer.value;
      outcome := FullExport(c, ArtifactName("full", c, stamp), fault);
    }

    /** The detached job of `POST /exports/incremental`. */
    method IncrementalJob(consumerId: string, filename: string, fault: Fault) returns (outcome: Outcome)
      modifies this
      ensures users == old(users)
      ensures var r := IncrementalRun(old(users), old(watermarks), old(artifacts), consumerId, filename, fault);
        outcome == r.outcome && After(r, old(journal))
    {
      if fault == ReadFault {
        return Failed(ReadFault);
      }
      if consumerId !in watermarks {
        return NoWatermark;
      }
      var lastExportedAt := watermarks[consumerId];
      var rows := IncrementalWindow(users, lastExportedAt);
      if |rows| == 0 {
        return NoChanges;
      }
      if fault == WriteFault {
        return Failed(WriteFault);
      }
      artifacts := artifacts[filename := RowFile(rows)];
      journal := journal + [ArtifactWritten(filename)];
      if fault == StoreFault {
        return Failed(StoreFault);
      }
      var latest := MaxUpdatedAt(DeltaWindow(users, lastExportedAt));
      watermarks := watermarks[consumerId := latest];
      journal := journal + [WatermarkCommitted(consumerId, latest)];
      return Exported(|rows|);
    }

    /**
     * `POST /exports/incremental`: reject a request without a consumer id,
     * else run the job into `incremental_<consumerId>_<stamp>.csv`.
     */
    method IncrementalExport(header: Option<string>, stamp: string, fault: Fault) returns (outcome: Outcome)
      modifies this
      ensures users == old(users)
      ensures ConsumerIdOf(header).None? ==> outcome == MissingConsumer && unchanged(this)
      ensures ConsumerIdOf(header).Some? ==>
        var c := ConsumerIdOf(header).value;
        var r := IncrementalRun(old(users), old(watermarks), old(artifacts), c, ArtifactName("incremental", c, stamp), fault);
        outcome == r.outcome && After(r, old(journal))
    {
      var consumer := ConsumerIdOf(header);
      if consumer.None? {
        return MissingConsumer;
      }
      var c := consumer.value;
      outcome := IncrementalJob(c, ArtifactName("incremental", c, stamp), fault);
    }

    /** The detached job of `POST /exports/delta`. */
    method DeltaJob(consumerId: string, filename: string, fault: Fault) returns (outcome: Outcome)
      modifies this
      ensures users == old(users)
      ensures var r := DeltaRun(old(users), old(watermarks), old(artifacts), consumerId, filename, fault);
        outcome == r.outcome && After(r, old(journal))
    {
      if fault == ReadFault {
        return Failed(ReadFault);
      }
      if consumerId !in watermarks {
        return NoWatermark;
      }
      var lastExportedAt := watermarks[consumerId];
      var rows := DeltaWindow(users, lastExportedAt);
      if |rows| == 0 {
        return NoChanges;
      }
      var records := ToRecords(rows);
      if fault == WriteFault {
        return Failed(WriteFault);
      }
      artifacts := artifacts[filename := DeltaFile(records)];
      journal := journal + [ArtifactWritten(filename)];
      if fault == StoreFault {
        return Failed(StoreFault);
      }
      var latest := MaxUpdatedAt(DeltaWindow(users, lastExportedAt));
      watermarks := watermarks[consumerId := latest];
      journal := journal + [WatermarkCommitted(consumerId, latest)];
      return Exported(|records|);
    }

    /**
     * `POST /exports/delta`: reject a request without a consumer id, else
     * run the job into `delta_<consumerId>_<stamp>.csv`.
     */
    method DeltaExport(header: Option<string>, stamp: string, fault: Fault) returns (outcome: Outcome)
      modifies this
      ensures users == old(users)
      ensures ConsumerIdOf(header).None? ==> outcome == MissingConsumer && unchanged(this)
      ensures ConsumerIdOf(header).Some? ==>
        var c := ConsumerIdOf(header).value;
        var r := DeltaRun(old(users), old(watermarks), old(artifacts), c, ArtifactName("delta", c, stamp), fault);
        outcome == r.outcome && After(r, old(journal))
    {
      var consumer := ConsumerIdOf(header);
      if consumer.None? {
        return MissingConsumer;
      }
      var c := consumer.value;
      outcome := DeltaJob(c, ArtifactName("delta", c, stamp), fault);
    }

    /**
     * `DELETE /users/:id`: mark every row with that id deleted and stamp it
     * with `now`. The reply is a success whenever the UPDATE runs, whether
     * or not a row matched.
     */
    method SoftDelete(id: int, now: int, queryFails: bool) returns (ok: bool)
      modifies this`users
      ensures ok == !queryFails
      ensures users == if queryFails then old(users) else SoftDeleted(old(users), id, now)
    {
      if queryFails {
        return false;
      }
      users := SoftDeleted(users, id, now);
      return true;
    }

    /** `GET /exports/watermark`: the consumer's stored watermark, NULL included. */
    method GetWatermark(header: Option<string>, queryFails: bool) returns (reply: WatermarkReply)
      ensures ConsumerIdOf(header).None? <==> reply == HeaderMissing
      ensures reply == LookupFailed <==> ConsumerIdOf(header).Some? && queryFails
      ensures reply == NotFound <==>
        ConsumerIdOf(header).Some? && !queryFails && header.value !in watermarks
      ensures reply.Found? <==>
        ConsumerIdOf(header).Some? && !queryFails && header.value in watermarks
      ensures reply.Found? ==>
        reply.consumerId == header.value && reply.lastExportedAt == watermarks[header.value]
    {
      var consumer := ConsumerIdOf(header);
      if consumer.None? {
        return HeaderMissing;
      }
      var c := consumer.value;
      if queryFails {
        return LookupFailed;
      }
      if c !in watermarks {
        return NotFound;
      }
      return Found(c, watermarks[c]);
    }
  }
}
