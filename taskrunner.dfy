/**
 * One firing of a database's timer (`backupTask`): it derives the snapshot
 * and log file names and the export address, hands them to the export
 * library, and prunes old snapshots only when the export reports success.
 *
 * The export itself is a foreign asynchronous operation; only the outcome its
 * callback reports enters the model, as the parameter `outcome`, together
 * with the directory listing that pruning then reads.
 */
module TaskRunner {
  import opened JsText
  import opened Config
  import opened Naming
  import opened Retention

  /** What the export callback reports: an error, or the summary data of a completed export. */
  datatype ExportOutcome = ExportFailed(error: string) | ExportSucceeded(summary: string)

  /** What one run produced: the names it wrote to, the address it exported from, and the unlinks it made. */
  datatype TaskRun = TaskRun(snapshot: string, logFile: string, url: string, attempted: seq<File>, deleted: seq<File>)

  /**
   * `backupTask(database, history)` started at `isoNow`. Pruning runs with the
   * `database` and `history` the timer was bound to, and only on success; a
   * failed export unlinks nothing.
   */
  method BackupTask(database: string, history: int, host: DatabaseHost, isoNow: string,
                    outcome: ExportOutcome, listing: seq<File>, unlinkOk: string -> bool)
    returns (run: TaskRun)
    ensures run.snapshot == SnapshotName(database, DateString(isoNow))
    ensures run.logFile == LogName(database)
    ensures run.url == DatabaseUrl(host, database)
    ensures outcome.ExportFailed? ==> run.attempted == [] && run.deleted == []
    ensures outcome.ExportSucceeded? ==>
      && OldestSelected(Candidates(database, listing), history, run.attempted)
      && run.deleted == Succeeded(run.attempted, unlinkOk)
  {
    var dateStr := DateString(isoNow);
    var backupFile := SnapshotName(database, dateStr);
    var logFile := LogName(database);
    var databaseUrl := DatabaseUrl(host, database);
    var attempted: seq<File>, deleted: seq<File> := [], [];
    match outcome {
      case ExportFailed(_) =>
      case ExportSucceeded(_) =>
        attempted, deleted := RemoveOldBackupFiles(database, history, listing, unlinkOk);
    }
    run := TaskRun(backupFile, logFile, databaseUrl, attempted, deleted);
  }

  /** The snapshot file a run writes is one that later prunes of the same database consider. */
  lemma SnapshotIsCandidate(database: string, iso: string)
    requires IsIsoTimestamp(iso)
    ensures Matches(database, SnapshotName(database, DateString(iso)))
  {
    IsoDateString(iso);
    var dateStr := DateString(iso);
    var name := SnapshotName(database, dateStr);
    var p := Pattern(database);
    assert name == p + "_" + dateStr + ".json";
    assert OccursAt(name, p, 0);
    assert OccursAt(name, "json", |name| - 4);
    assert NoLineTerminator(name, |p|, |name| - 4) by {
      forall k | |p| <= k < |name| - 4 ensures !IsLineTerminator(name[k]) {
        if |p| < k < |p| + 1 + |dateStr| {
          var m := k - |p| - 1;
          assert name[k] == dateStr[m];
          if m < 10 {
            assert dateStr[m] == iso[m];
            if m != 4 && m != 7 { assert IsDigit(iso[m]); }
          } else if m > 10 {
            assert dateStr[m] == iso[m];
            if m != 13 { assert IsDigit(iso[m]); }
          }
        }
      }
    }
    assert MatchAt(name, p, 0);
    MatchesIffPattern(database, name);
  }

  /** The export log file `<database>_backup.log` is never a candidate, whatever the database name. */
  lemma LogFileNeverCandidate(database: string)
    ensures !Matches(database, LogName(database))
  {
    var name := LogName(database);
    var p := Pattern(database);
    assert name == p + ".log";
    MatchesIffPattern(database, name);
    forall a | OccursAt(name, p, a)
      ensures !JsonFollows(name, a + |p|)
    {
      assert name[|p|..|p| + 4] == ".log";
    }
  }

  /**
   * A pass that prunes never removes the newest candidate: when the run's own
   * snapshot is strictly newer than every other candidate, it survives every
   * pass with a positive history.
   */
  lemma NewestSurvives(database: string, history: int, listing: seq<File>, attempted: seq<File>, newest: File)
    requires OldestSelected(Candidates(database, listing), history, attempted)
    requires history > 0
    requires multiset(listing)[newest] == 1 && Matches(database, newest.name)
    requires forall f :: f in listing && f != newest && Matches(database, f.name) ==> f.mtime < newest.mtime
    ensures newest !in attempted
  {
    var c := Candidates(database, listing);
    if 0 < history < |c| {
      PruneKeepsHistory(c, history, attempted);
      var kept := multiset(c) - multiset(attempted);
      var k :| k in kept;
      if k == newest {
        assert multiset(attempted)[newest] == 0;
      } else {
        assert k in c && k.mtime < newest.mtime;
      }
    }
  }
}
