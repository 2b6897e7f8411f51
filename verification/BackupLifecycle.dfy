/**
  What making a backup leaves in the table (internal/backups/backups.go, Create and Upload): the row it
  starts with, and the row, the archive and the phase of every way it can end.
 */
module BackupLifecycle {
  import opened Options
  import opened Retention
  import opened BackupRecords

  /** Every row but this one is as it was. */
  ghost predicate OthersKept(rows: seq<Backup>, rows': seq<Backup>, id: nat) {
    forall b :: b in rows && b.id != id ==> Find(rows', b.id) == Some(b)
  }

  lemma EditedOthers(rows: seq<Backup>, rows': seq<Backup>, server: nat, gone: Option<Backup>, came: Backup)
    requires Edited(rows, rows', server, gone, Some(came)) && (gone.Some? ==> gone.value.id == came.id)
    ensures OthersKept(rows, rows', came.id) && Find(rows', came.id) == Some(came)
  {
    hide Find, Listing;
    EditedMembers(rows, rows', server, gone, Some(came));
    FindUnique(rows', came);
    forall b | b in rows && b.id != came.id ensures Find(rows', b.id) == Some(b) {
      FindUnique(rows', b);
    }
  }

  /** With the server idle and a fresh id a backup can be started: an empty pending row, no archive. */
  lemma CreateBegins(panel: Panel, server: nat, id: nat, position: nat, created: Stamp)
    requires Inv(panel) && PhaseOf(panel, server) == Idle
    requires Find(panel.rows, id).None? && id !in panel.archives && position <= |panel.rows|
    ensures var next := Next(panel, BeginCreate(server, id, position, created));
            && next.Some?
            && Find(next.value.rows, id) == Some(Backup(id, server, 0, Pending, created, false, Never))
            && OthersKept(panel.rows, next.value.rows, id)
            && next.value.archives == panel.archives
            && PhaseOf(next.value, server) == Creating(id)
  {
    hide Find, Insert, Inv, Listing, OthersKept;
    assert UniqueIds(panel.rows) by {
      InvIsUnique(panel);
    }
    var row := Backup(id, server, 0, Pending, created, false, Never);
    InsertEdits(panel.rows, position, row);
    EditedOthers(panel.rows, Insert(panel.rows, position, row), server, None, row);
  }

  lemma InvIsUnique(panel: Panel)
    requires Inv(panel)
    ensures UniqueIds(panel.rows)
  {
  }

  lemma CreatingRow(panel: Panel, server: nat)
    requires Inv(panel) && PhaseOf(panel, server).Creating?
    ensures var row := Find(panel.rows, PhaseOf(panel, server).id);
            row.Some? && row.value.server == server && row.value.status == Pending
  {
    assert PhaseOk(panel.rows, server, PhaseOf(panel, server));
  }

  /** Success makes the pending row a completed one of the archive's size, and the archive is there; retention
      comes next. A failure that could be recorded makes it a failed one, and one that could not leaves it
      pending; then the archive is there only if it was saved before, and the server is idle again. */
  lemma CreateFinishes(panel: Panel, server: nat, outcome: Outcome)
    requires Inv(panel) && PhaseOf(panel, server).Creating?
    ensures var id, next := PhaseOf(panel, server).id, Next(panel, FinishCreate(server, outcome));
            && Find(panel.rows, id).Some? && next.Some?
            && var pending, row := Find(panel.rows, id).value, Find(next.value.rows, id);
            && row == Some(match outcome
                           case Succeeded(size) => pending.(status := Completed, size := size)
                           case Broke(_) => pending.(status := Failed)
                           case Lost(_) => pending)
            && OthersKept(panel.rows, next.value.rows, id)
            && next.value.archives
               == (if outcome.Succeeded? || outcome.saved then panel.archives + {id} else panel.archives)
            && PhaseOf(next.value, server) == (if outcome.Succeeded? then Retaining else Idle)
  {
    hide Find, Replace, Inv, Listing, UniqueIds;
    InvIsUnique(panel);
    CreatingRow(panel, server);
    var pending := Find(panel.rows, PhaseOf(panel, server).id).value;
    forall b | b in panel.rows ensures Find(panel.rows, b.id) == Some(b) {
      FindUnique(panel.rows, b);
    }
    if !outcome.Lost? {
      var row := if outcome.Broke? then pending.(status := Failed)
                 else pending.(status := Completed, size := outcome.size);
      ReplaceEdits(panel.rows, pending, row);
      EditedOthers(panel.rows, Replace(panel.rows, row), server, Some(pending), row);
    }
  }

  /** An upload is stored as a completed backup with its archive, or, if its row is refused, as an archive
      without a row. */
  lemma UploadStores(panel: Panel, server: nat, id: nat, position: nat, created: Stamp, size: int, recorded: bool)
    requires Inv(panel) && PhaseOf(panel, server) == Idle
    requires Find(panel.rows, id).None? && id !in panel.archives && position <= |panel.rows|
    ensures var next := Next(panel, Upload(server, id, position, created, size, recorded));
            && next.Some? && next.value.archives == panel.archives + {id}
            && Find(next.value.rows, id)
               == (if recorded then Some(Backup(id, server, size, Completed, created, false, Never)) else None)
            && OthersKept(panel.rows, next.value.rows, id)
            && PhaseOf(next.value, server) == (if recorded then Retaining else Idle)
  {
    hide Find, Insert, Inv, Listing, UniqueIds;
    InvIsUnique(panel);
    forall b | b in panel.rows ensures Find(panel.rows, b.id) == Some(b) {
      FindUnique(panel.rows, b);
    }
    if recorded {
      var row := Backup(id, server, size, Completed, created, false, Never);
      InsertEdits(panel.rows, position, row);
      EditedOthers(panel.rows, Insert(panel.rows, position, row), server, None, row);
    }
  }

  /** With the server idle, exactly its active completed backups can be restored, protected or not; the
      table is not touched. */
  lemma RestoreBegins(panel: Panel, server: nat, id: nat)
    requires PhaseOf(panel, server) == Idle
    ensures var row, next := Find(panel.rows, id), Next(panel, BeginRestore(server, id));
            if row.Some? && row.value.server == server && row.value.status == Completed && row.value.deleted == Never
            then next.Some? && next.value.rows == panel.rows && next.value.archives == panel.archives
                 && PhaseOf(next.value, server) == Restoring(row.value)
            else next.None?
  {
    hide Find;
  }
}
