/**
  The backup table under concurrent operations (internal/backups/backups.go and retention.go).

  Rows are kept in the order of the list query (newest first); where a new row lands in it is left
  open, so a clock that steps back is covered. Each SQL statement is one step; removing an archive and
  then its row is one step that may fail before either. An operation holds its server's lock from its
  first step to its last (module OperationLock proves that the lock excludes a second one), works from
  the rows it read at its start, and may fail at any statement or be stopped between any two of them.
 */
module BackupRecords {
  import opened Options
  import opened Retention

  datatype Change = ToTrash | FromTrash | Guard(on: bool) | Purge | Delete

  datatype Phase =
    | Idle
    | Creating(id: nat)                                  // a pending row; the archive is being made
    | Retaining                                          // a backup has just completed
    | Changing(was: Backup, change: Change)
    | Restoring(source: Backup)
    | Cleaning(policy: Policy, now: int, auto: bool, purge: seq<Backup>, trash: seq<Backup>)

  /** The table, the ids whose archive exists, and what each server's lock holder is doing. */
  datatype Panel = Panel(rows: seq<Backup>, archives: set<nat>, phases: map<nat, Phase>)

  function PhaseOf(panel: Panel, server: nat): Phase {
    if server in panel.phases then panel.phases[server] else Idle
  }

  // ---- the table -------------------------------------------------------------------------------------

  /** SELECT … WHERE server_id = ? AND (deleted_at != '') = ? */
  function Listing(rows: seq<Backup>, server: nat, trash: bool): seq<Backup> {
    if rows == [] then []
    else
      var b := rows[|rows| - 1];
      Listing(rows[..|rows| - 1], server, trash)
      + (if b.server == server && (b.deleted != Never) == trash then [b] else [])
  }

  /** SELECT … WHERE id = ? */
  function Find(rows: seq<Backup>, id: nat): (r: Option<Backup>)
    ensures r.Some? ==> r.value in rows && r.value.id == id
    ensures r.None? ==> forall i :: 0 <= i < |rows| ==> rows[i].id != id
  {
    if rows == [] then None
    else if rows[|rows| - 1].id == id then Some(rows[|rows| - 1])
    else Find(rows[..|rows| - 1], id)
  }

  /** UPDATE … WHERE id = ?, with the whole new row. */
  function Replace(rows: seq<Backup>, b: Backup): (r: seq<Backup>)
    ensures |r| == |rows|
    ensures forall i :: 0 <= i < |rows| ==> r[i] == if rows[i].id == b.id then b else rows[i]
  {
    if rows == [] then []
    else
      var last := rows[|rows| - 1];
      Replace(rows[..|rows| - 1], b) + [if last.id == b.id then b else last]
  }

  /** DELETE … WHERE id = ? */
  function Without(rows: seq<Backup>, id: nat): seq<Backup> {
    if rows == [] then []
    else
      var last := rows[|rows| - 1];
      Without(rows[..|rows| - 1], id) + (if last.id == id then [] else [last])
  }

  // ---- what each operation does to the table -----------------------------------------------------------

  /** trashLocked on the row `b` it was given; a refusal and a failing statement change nothing. */
  function TrashRow(rows: seq<Backup>, b: Backup, at: int, ok: bool): seq<Backup> {
    var row := Find(rows, b.id);
    if b.guarded || b.status == Pending || b.deleted != Never || !ok || row.None? then rows
    else Replace(rows, row.value.(deleted := At(at)))
  }

  datatype Fault = NoFault | ArchiveStays | RowStays

  predicate Deletable(b: Backup) {
    !b.guarded && b.status != Pending
  }

  /** deleteLocked: the archive goes first, so a failure there leaves both, and a failure of the
      statement that follows leaves a row without an archive. */
  function DeleteRow(rows: seq<Backup>, b: Backup, fault: Fault): seq<Backup> {
    if Deletable(b) && fault == NoFault then Without(rows, b.id) else rows
  }

  function DeleteArchive(archives: set<nat>, b: Backup, fault: Fault): set<nat> {
    if Deletable(b) && fault != ArchiveStays then archives - {b.id} else archives
  }

  function ChangeRow(rows: seq<Backup>, b: Backup, change: Change, at: int, fault: Fault): seq<Backup> {
    var row := Find(rows, b.id);
    var ok := fault == NoFault;
    match change
    case ToTrash => TrashRow(rows, b, at, ok)
    case FromTrash =>
      if b.deleted == Never || !ok || row.None? then rows
      else Replace(rows, row.value.(deleted := Never, guarded := row.value.status == Completed))
    case Guard(on) =>
      if b.deleted != Never || b.status != Completed || !ok || row.None? then rows
      else Replace(rows, row.value.(guarded := on))
    case Purge => if b.deleted == Never || b.guarded then rows else DeleteRow(rows, b, fault)
    case Delete => DeleteRow(rows, b, fault)
  }

  function ChangeArchive(archives: set<nat>, b: Backup, change: Change, fault: Fault): set<nat> {
    if change.Delete? || (change.Purge? && b.deleted != Never && !b.guarded) then DeleteArchive(archives, b, fault)
    else archives
  }

  function CleanupPhase(rows: seq<Backup>, server: nat, policy: Policy, now: int, emptyTrash: bool): Phase {
    var plan := PlanSpec(policy, Listing(rows, server, false), Listing(rows, server, true), now);
    if emptyTrash then Cleaning(policy, now, false, Listing(rows, server, true), [])
    else Cleaning(policy, now, true, plan.toPurge, BackupsOf(plan.toTrash))
  }

  // ---- steps -------------------------------------------------------------------------------------------

  datatype Outcome = Succeeded(size: int) | Broke(saved: bool) | Lost(saved: bool)

  datatype Step =
    | BeginCreate(server: nat, id: nat, position: nat, created: Stamp)
    | FinishCreate(server: nat, outcome: Outcome)
    | Upload(server: nat, id: nat, position: nat, created: Stamp, size: int, recorded: bool)
    | BeginChange(server: nat, id: nat, change: Change)
    | ApplyChange(server: nat, at: int, fault: Fault)
    | BeginRestore(server: nat, id: nat)
    | BeginCleanup(server: nat, policy: Policy, now: int, emptyTrash: bool)
    | PurgeNext(server: nat, fault: Fault)
    | TrashNext(server: nat, at: int, ok: bool)
    | Stop(server: nat)

  function Insert(rows: seq<Backup>, position: nat, b: Backup): seq<Backup>
    requires position <= |rows|
  {
    rows[..position] + [b] + rows[position..]
  }

  function Moved(panel: Panel, server: nat, rows: seq<Backup>, archives: set<nat>, phase: Phase): Panel {
    Panel(rows, archives, panel.phases[server := phase])
  }

  function Entering(panel: Panel, server: nat, phase: Phase): Panel {
    Moved(panel, server, panel.rows, panel.archives, phase)
  }

  /** The panel after a step, or None where the step is not possible. */
  function Next(panel: Panel, step: Step): Option<Panel> {
    var rows, archives, server := panel.rows, panel.archives, step.server;
    var phase := PhaseOf(panel, server);
    match step
    case BeginCreate(_, id, position, created) =>
      if phase != Idle || Find(rows, id).Some? || id in archives || position > |rows| then None
      else
        var row := Backup(id, server, 0, Pending, created, false, Never);
        Some(Moved(panel, server, Insert(rows, position, row), archives, Creating(id)))
    case FinishCreate(_, outcome) =>
      if !phase.Creating? then None
      else
        var row := Find(rows, phase.id);
        var archives' := if outcome.Succeeded? || outcome.saved then archives + {phase.id} else archives;
        if row.None? || outcome.Lost? then Some(Moved(panel, server, rows, archives', Idle))
        else if outcome.Broke? then
          Some(Moved(panel, server, Replace(rows, row.value.(status := Failed)), archives', Idle))
        else
          var done := row.value.(status := Completed, size := outcome.size);
          Some(Moved(panel, server, Replace(rows, done), archives', Retaining))
    case Upload(_, id, position, created, size, recorded) =>
      if phase != Idle || Find(rows, id).Some? || id in archives || position > |rows| then None
      else if !recorded then Some(Moved(panel, server, rows, archives + {id}, Idle))   // the row was refused
      else
        var row := Backup(id, server, size, Completed, created, false, Never);
        Some(Moved(panel, server, Insert(rows, position, row), archives + {id}, Retaining))
    case BeginChange(_, id, change) =>
      var row := Find(rows, id);
      if phase != Idle || row.None? || row.value.server != server then None
      else Some(Entering(panel, server, Changing(row.value, change)))
    case ApplyChange(_, at, fault) =>
      if !phase.Changing? then None
      else
        Some(Moved(panel, server, ChangeRow(rows, phase.was, phase.change, at, fault),
                   ChangeArchive(archives, phase.was, phase.change, fault), Idle))
    case BeginRestore(_, id) =>
      var row := Find(rows, id);
      if phase != Idle || row.None? || row.value.server != server
         || row.value.status != Completed || row.value.deleted != Never then None
      else Some(Entering(panel, server, Restoring(row.value)))
    case BeginCleanup(_, policy, now, emptyTrash) =>
      if !ValidPolicy(policy) || !(phase.Idle? || (phase.Retaining? && !emptyTrash)) then None
      else Some(Entering(panel, server, CleanupPhase(rows, server, policy, now, emptyTrash)))
    case PurgeNext(_, fault) =>
      if !phase.Cleaning? || phase.purge == [] then None
      else
        var b := phase.purge[0];
        Some(Moved(panel, server, DeleteRow(rows, b, fault), DeleteArchive(archives, b, fault),
                   phase.(purge := phase.purge[1..])))
    case TrashNext(_, at, ok) =>
      if !phase.Cleaning? || phase.purge != [] || phase.trash == [] then None
      else
        Some(Moved(panel, server, TrashRow(rows, phase.trash[0], at, ok), archives,
                   phase.(trash := phase.trash[1..])))
    case Stop(_) =>
      if phase.Idle? then None else Some(Entering(panel, server, Idle))
  }

  // ---- the invariant -----------------------------------------------------------------------------------

  ghost predicate UniqueIds(rows: seq<Backup>) {
    forall i, j :: 0 <= i < j < |rows| ==> rows[i].id != rows[j].id
  }

  /** Protected implies completed and active; pending implies not in trash. */
  predicate RowOk(b: Backup) {
    (b.guarded ==> b.status == Completed && b.deleted == Never) && (b.status == Pending ==> b.deleted == Never)
  }

  /** In trash since at least the policy's number of days, with the limit on. */
  predicate Due(policy: Policy, now: int, b: Backup) {
    b.deleted.At? && policy.trashRetentionDays > 0
    && b.deleted.seconds * SECOND + policy.trashRetentionDays * DAY <= now
  }

  /** The newest active completed snapshot of a server. */
  function NewestOf(rows: seq<Backup>, server: nat): Option<Backup> {
    Newest(Listing(rows, server, false))
  }

  /** What an operation still intends is true of the table as it is now. */
  ghost predicate PhaseOk(rows: seq<Backup>, server: nat, phase: Phase) {
    match phase
    case Idle => true
    case Creating(id) =>
      Find(rows, id).Some? && Find(rows, id).value.server == server && Find(rows, id).value.status == Pending
    case Retaining => true
    case Changing(was, _) => was in rows && was.server == server
    case Restoring(b) => b in rows && b.server == server && b.status == Completed && b.deleted == Never
    case Cleaning(policy, now, auto, purge, trash) =>
      && ValidPolicy(policy)
      && UniqueIds(purge) && UniqueIds(trash)
      && (forall b :: b in purge ==> b in rows && b.server == server && b.deleted != Never
                                     && (auto ==> Due(policy, now, b)))
      && (trash != [] ==> auto)
      && (forall b :: b in trash ==> b in rows && b.server == server && b.deleted == Never && Counted(b)
                                     && Spared(rows, server, b.id))
  }

  /** There is a newest snapshot, and it is not this row. */
  ghost predicate Spared(rows: seq<Backup>, server: nat, id: nat) {
    NewestOf(rows, server).Some? && NewestOf(rows, server).value.id != id
  }

  ghost predicate Inv(panel: Panel) {
    && UniqueIds(panel.rows)
    && (forall b :: b in panel.rows ==> RowOk(b))
    && (forall s :: s in panel.phases ==> PhaseOk(panel.rows, s, panel.phases[s]))
  }

  // ---- the table's own lemmas ----------------------------------------------------------------------------

  lemma LastIsNew(rows: seq<Backup>)
    requires UniqueIds(rows) && rows != []
    ensures UniqueIds(rows[..|rows| - 1])
    ensures forall b :: b in rows[..|rows| - 1] ==> b.id != rows[|rows| - 1].id
    ensures forall b :: b in rows ==> b in rows[..|rows| - 1] || b == rows[|rows| - 1]
  {
    assert rows == rows[..|rows| - 1] + [rows[|rows| - 1]];
  }

  lemma {:induction false} FindUnique(rows: seq<Backup>, b: Backup)
    requires UniqueIds(rows) && b in rows
    ensures Find(rows, b.id) == Some(b)
  {
    hide UniqueIds;
    LastIsNew(rows);
    if rows[|rows| - 1] != b {
      FindUnique(rows[..|rows| - 1], b);
    }
  }

  lemma {:induction false} WithoutUnique(rows: seq<Backup>, id: nat)
    requires UniqueIds(rows)
    ensures UniqueIds(Without(rows, id))
  {
    if rows != [] {
      var init, last := rows[..|rows| - 1], rows[|rows| - 1];
      WithoutUnique(init, id);
      forall b | b in Without(init, id) ensures b.id != last.id {
        WithoutMember(init, id, b);
      }
    }
  }

  lemma {:induction false} ListingMember(rows: seq<Backup>, server: nat, trash: bool, b: Backup)
    ensures b in Listing(rows, server, trash) <==> b in rows && b.server == server && (b.deleted != Never) == trash
  {
    if rows != [] {
      ListingMember(rows[..|rows| - 1], server, trash, b);
      assert rows == rows[..|rows| - 1] + [rows[|rows| - 1]];
    }
  }

  lemma {:induction false} ListingUnique(rows: seq<Backup>, server: nat, trash: bool)
    requires UniqueIds(rows)
    ensures UniqueIds(Listing(rows, server, trash))
  {
    if rows != [] {
      var init, last := rows[..|rows| - 1], rows[|rows| - 1];
      ListingUnique(init, server, trash);
      forall b | b in Listing(init, server, trash) ensures b.id != last.id {
        ListingMember(init, server, trash, b);
      }
    }
  }

  /** Rows that no list of `server` sees make no difference to it: here, one row replaced. */
  lemma {:induction false} ListingOfReplace(rows: seq<Backup>, prior: Backup, b: Backup, server: nat, trash: bool)
    requires UniqueIds(rows) && prior in rows && prior.id == b.id
    requires !(prior.server == server && (prior.deleted != Never) == trash)
    requires !(b.server == server && (b.deleted != Never) == trash)
    ensures Listing(Replace(rows, b), server, trash) == Listing(rows, server, trash)
  {
    hide UniqueIds, Listing;
    var init, last := rows[..|rows| - 1], rows[|rows| - 1];
    LastIsNew(rows);
    assert rows == init + [last];
    ListingOfMore(init, last, server, trash);
    ListingOfMore(Replace(init, b), if last.id == b.id then b else last, server, trash);
    if last == prior {
      ReplaceMissing(init, b);
    } else {
      ListingOfReplace(init, prior, b, server, trash);
    }
  }

  lemma {:induction false} ReplaceMissing(rows: seq<Backup>, b: Backup)
    requires forall x :: x in rows ==> x.id != b.id
    ensures Replace(rows, b) == rows
  {
  }

  lemma {:induction false} ListingOfWithout(rows: seq<Backup>, prior: Backup, server: nat, trash: bool)
    requires UniqueIds(rows) && prior in rows
    requires !(prior.server == server && (prior.deleted != Never) == trash)
    ensures Listing(Without(rows, prior.id), server, trash) == Listing(rows, server, trash)
  {
    hide UniqueIds, Listing;
    var init, last := rows[..|rows| - 1], rows[|rows| - 1];
    LastIsNew(rows);
    assert rows == init + [last];
    ListingOfMore(init, last, server, trash);
    if last == prior {
      WithoutMissing(init, prior.id);
      assert Without(rows, prior.id) == init;
    } else {
      ListingOfWithout(init, prior, server, trash);
      ListingOfMore(Without(init, prior.id), last, server, trash);
    }
  }

  lemma ListingOfMore(rows: seq<Backup>, b: Backup, server: nat, trash: bool)
    ensures Listing(rows + [b], server, trash)
         == Listing(rows, server, trash) + (if b.server == server && (b.deleted != Never) == trash then [b] else [])
    ensures Listing(rows, server, trash) + [] == Listing(rows, server, trash)
  {
    assert (rows + [b])[..|rows|] == rows;
  }

  lemma {:induction false} WithoutMissing(rows: seq<Backup>, id: nat)
    requires forall x :: x in rows ==> x.id != id
    ensures Without(rows, id) == rows
  {
    if rows != [] {
      var init := rows[..|rows| - 1];
      WithoutMissing(init, id);
      assert rows == init + [rows[|rows| - 1]];
    }
  }

  lemma {:induction false} ListingOfInsert(rows: seq<Backup>, position: nat, b: Backup, server: nat, trash: bool)
    requires position <= |rows| && !(b.server == server && (b.deleted != Never) == trash)
    ensures Listing(Insert(rows, position, b), server, trash) == Listing(rows, server, trash)
    decreases |rows|
  {
    var rows' := Insert(rows, position, b);
    assert |rows'| == |rows| + 1;
    if position == |rows| {
      assert rows'[..|rows|] == rows && rows'[|rows|] == b;
      assert Listing(rows, server, trash) + [] == Listing(rows, server, trash);
    } else {
      var init, last := rows[..|rows| - 1], rows[|rows| - 1];
      ListingOfInsert(init, position, b, server, trash);
      assert rows'[..|rows|] == Insert(init, position, b) && rows'[|rows|] == last;
    }
  }

  /** Moving an older snapshot to trash leaves the newest one the newest. */
  lemma {:induction false} NewestAfterTrash(rows: seq<Backup>, prior: Backup, b: Backup, server: nat)
    requires UniqueIds(rows) && prior.id == b.id && b.deleted != Never && b.server == prior.server
    requires forall i :: 0 <= i < |rows| && rows[i].id == prior.id ==> rows[i] == prior
    requires NewestOf(rows, server).Some? ==> NewestOf(rows, server).value.id != prior.id
    ensures NewestOf(Replace(rows, b), server) == NewestOf(rows, server)
  {
    if rows != [] {
      var init, last := rows[..|rows| - 1], rows[|rows| - 1];
      var rows' := Replace(rows, b);
      assert rows'[..|rows| - 1] == Replace(init, b);
      NewestOfMore(init, last, server);
      NewestOfMore(Replace(init, b), rows'[|rows| - 1], server);
      assert rows == init + [last] && rows' == Replace(init, b) + [rows'[|rows| - 1]];
      NewestAfterTrash(init, prior, b, server);
    }
  }

  lemma NewestOfMore(rows: seq<Backup>, b: Backup, server: nat)
    ensures NewestOf(rows + [b], server)
         == if NewestOf(rows, server).Some? then NewestOf(rows, server)
            else if b.server == server && b.deleted == Never && b.status == Completed then Some(b)
            else None
  {
    var more := rows + [b];
    assert more[..|rows|] == rows && more[|rows|] == b;
    var before := Listing(rows, server, false);
    if b.server == server && b.deleted == Never {
      assert (before + [b])[..|before|] == before;
    } else {
      assert before + [] == before;
    }
  }

  // ---- every step keeps the invariant ------------------------------------------------------------------

  lemma {:induction false} WithoutSize(rows: seq<Backup>, b: Backup)
    requires UniqueIds(rows) && b in rows
    ensures |Without(rows, b.id)| == |rows| - 1
  {
    var init, last := rows[..|rows| - 1], rows[|rows| - 1];
    LastIsNew(rows);
    if last.id == b.id {
      SameIdSameRow(rows, last, b);
      WithoutMissing(init, b.id);
    } else {
      WithoutSize(init, b);
    }
  }

  /** Moving one active row to trash makes the active list shorter by one. */
  lemma {:induction false} ListingAfterTrash(rows: seq<Backup>, prior: Backup, b: Backup)
    requires UniqueIds(rows) && prior in rows && prior.id == b.id && prior.server == b.server
    requires prior.deleted == Never && b.deleted != Never
    ensures |Listing(Replace(rows, b), b.server, false)| == |Listing(rows, b.server, false)| - 1
  {
    var init, last := rows[..|rows| - 1], rows[|rows| - 1];
    LastIsNew(rows);
    assert Replace(rows, b)[..|rows| - 1] == Replace(init, b);
    if last.id == b.id {
      SameIdSameRow(rows, last, prior);
      ReplaceMissing(init, b);
    } else {
      ListingAfterTrash(init, prior, b);
    }
  }

  lemma {:induction false} WithoutMember(rows: seq<Backup>, id: nat, b: Backup)
    ensures b in Without(rows, id) <==> b in rows && b.id != id
  {
    if rows != [] {
      WithoutMember(rows[..|rows| - 1], id, b);
      assert rows == rows[..|rows| - 1] + [rows[|rows| - 1]];
    }
  }

  lemma SameIdSameRow(rows: seq<Backup>, a: Backup, b: Backup)
    requires UniqueIds(rows) && a in rows && b in rows && a.id == b.id
    ensures a == b
  {
    FindUnique(rows, a);
    FindUnique(rows, b);
  }

  /** For `server`, the two tables are the same. */
  ghost predicate Undisturbed(rows: seq<Backup>, rows': seq<Backup>, server: nat) {
    && (forall b: Backup :: b.server == server ==> (b in rows <==> b in rows'))
    && Listing(rows', server, false) == Listing(rows, server, false)
  }

  /** What a change to rows of one server means for everyone: only `gone` left and only `came` joined. */
  ghost predicate Edited(rows: seq<Backup>, rows': seq<Backup>, server: nat, gone: Option<Backup>,
                         came: Option<Backup>) {
    && UniqueIds(rows')
    && (forall b: Backup :: b in rows' <==> (b in rows && gone != Some(b)) || came == Some(b))
    && (forall t: nat :: t != server ==> Undisturbed(rows, rows', t))
  }

  lemma NothingEdited(rows: seq<Backup>, server: nat)
    requires UniqueIds(rows)
    ensures Edited(rows, rows, server, None, None)
  {
  }

  lemma InsertMembers(rows: seq<Backup>, position: nat, b: Backup)
    requires position <= |rows|
    ensures forall x: Backup :: x in Insert(rows, position, b) <==> x in rows || x == b
  {
    assert rows == rows[..position] + rows[position..];
  }

  lemma InsertUnique(rows: seq<Backup>, position: nat, b: Backup)
    requires UniqueIds(rows) && position <= |rows| && forall i :: 0 <= i < |rows| ==> rows[i].id != b.id
    ensures UniqueIds(Insert(rows, position, b))
  {
    var rows' := Insert(rows, position, b);
    assert |rows'| == |rows| + 1;
    forall i, j | 0 <= i < j < |rows'| ensures rows'[i].id != rows'[j].id {
      assert rows'[i] == if i < position then rows[i] else if i == position then b else rows[i - 1];
      assert rows'[j] == if j < position then rows[j] else if j == position then b else rows[j - 1];
    }
  }

  lemma InsertEdits(rows: seq<Backup>, position: nat, b: Backup)
    requires UniqueIds(rows) && position <= |rows| && Find(rows, b.id).None?
    ensures Edited(rows, Insert(rows, position, b), b.server, None, Some(b))
  {
    hide Listing, Find;
    var rows' := Insert(rows, position, b);
    InsertMembers(rows, position, b);
    InsertUnique(rows, position, b);
    forall t: nat | t != b.server ensures Undisturbed(rows, rows', t) {
      ListingOfInsert(rows, position, b, t, false);
    }
  }

  lemma ReplaceEdits(rows: seq<Backup>, prior: Backup, b: Backup)
    requires UniqueIds(rows) && prior in rows && prior.id == b.id && prior.server == b.server
    ensures Edited(rows, Replace(rows, b), b.server, Some(prior), Some(b))
  {
    var rows' := Replace(rows, b);
    forall x: Backup ensures x in rows' <==> (x in rows && x != prior) || x == b {
      ReplaceMember(rows, prior, b, x);
    }
    forall t: nat | t != b.server ensures Undisturbed(rows, rows', t) {
      ListingOfReplace(rows, prior, b, t, false);
    }
  }

  lemma ReplaceMember(rows: seq<Backup>, prior: Backup, b: Backup, x: Backup)
    requires UniqueIds(rows) && prior in rows && prior.id == b.id
    ensures x in Replace(rows, b) <==> (x in rows && x != prior) || x == b
  {
    var rows' := Replace(rows, b);
    var k :| 0 <= k < |rows| && rows[k] == prior;
    assert rows'[k] == b;
    if x in rows && x != prior {
      var i :| 0 <= i < |rows| && rows[i] == x;
      assert rows'[i] == x;
    }
  }

  lemma WithoutEdits(rows: seq<Backup>, prior: Backup)
    requires UniqueIds(rows) && prior in rows
    ensures Edited(rows, Without(rows, prior.id), prior.server, Some(prior), None)
  {
    var rows' := Without(rows, prior.id);
    WithoutUnique(rows, prior.id);
    forall x: Backup ensures x in rows' <==> x in rows && x != prior {
      WithoutMember(rows, prior.id, x);
      if x in rows && x.id == prior.id {
        SameIdSameRow(rows, x, prior);
      }
    }
    forall t: nat | t != prior.server ensures Undisturbed(rows, rows', t) {
      ListingOfWithout(rows, prior, t, false);
    }
  }

  lemma PhaseKept(rows: seq<Backup>, rows': seq<Backup>, server: nat, phase: Phase)
    requires UniqueIds(rows) && UniqueIds(rows') && Undisturbed(rows, rows', server) && PhaseOk(rows, server, phase)
    ensures PhaseOk(rows', server, phase)
  {
    hide Listing, Find;
    match phase
    case Creating(id) =>
      FindUnique(rows', Find(rows, id).value);
    case _ =>
  }

  /** The other servers' operations are as they were; so the invariant is about this server's. */
  lemma InvAfter(panel: Panel, server: nat, rows': seq<Backup>, archives': set<nat>, phase': Phase,
                 gone: Option<Backup>, came: Option<Backup>)
    requires Inv(panel) && Edited(panel.rows, rows', server, gone, came)
    requires came.Some? ==> RowOk(came.value)
    requires PhaseOk(rows', server, phase')
    ensures Inv(Moved(panel, server, rows', archives', phase'))
  {
    hide PhaseOk, Undisturbed, UniqueIds;
    var panel' := Moved(panel, server, rows', archives', phase');
    forall t | t in panel'.phases ensures PhaseOk(rows', t, panel'.phases[t]) {
      if t != server {
        PhaseKept(panel.rows, rows', t, panel.phases[t]);
      }
    }
  }

  // ---- what every step is safe for ------------------------------------------------------------------------

  /** A step took this backup's archive, or its row. */
  ghost predicate Taken(panel: Panel, panel': Panel, b: Backup) {
    (b.id in panel.archives && b.id !in panel'.archives) || Find(panel'.rows, b.id).None?
  }

  ghost predicate Safe(panel: Panel, step: Step, panel': Panel) {
    // only deleting takes an archive or a row: of the server itself, not protected, and not pending
    && (forall b :: b in panel.rows && Taken(panel, panel', b) ==>
          (step.ApplyChange? || step.PurgeNext?) && Deletable(b) && b.server == step.server)
    // a pending row is changed only by the operation that is making it
    && (forall b :: b in panel.rows && b.status == Pending ==>
          b in panel'.rows || (step.FinishCreate? && PhaseOf(panel, step.server) == Creating(b.id)))
    // cleanup leaves every server its newest active completed snapshot
    && (step.PurgeNext? || step.TrashNext? ==>
          forall t: nat :: NewestOf(panel'.rows, t) == NewestOf(panel.rows, t))
    // cleanup takes only what its plan holds
    && (step.PurgeNext? && PhaseOf(panel, step.server).Cleaning? ==>
          forall b :: b in panel.rows && Taken(panel, panel', b) ==> b in PhaseOf(panel, step.server).purge)
    // automatic cleanup takes only what has been in trash for the policy's number of days
    && (step.PurgeNext? && PhaseOf(panel, step.server).Cleaning? && PhaseOf(panel, step.server).auto ==>
          forall b :: b in panel.rows && Taken(panel, panel', b) ==>
            Due(PhaseOf(panel, step.server).policy, PhaseOf(panel, step.server).now, b))
  }

  /** A step that edits no row, or adds one, takes nothing. */
  lemma SafeWhenKept(panel: Panel, step: Step, panel': Panel)
    requires UniqueIds(panel'.rows) && panel.archives <= panel'.archives
    requires !step.PurgeNext? && !step.TrashNext?
    requires forall b :: b in panel.rows ==> b in panel'.rows
    ensures Safe(panel, step, panel')
  {
    hide Find;
    forall b | b in panel.rows ensures Find(panel'.rows, b.id).Some? {
      FindUnique(panel'.rows, b);
    }
  }

  /** A step that rewrites one row takes nothing. */
  lemma SafeWhenReplaced(panel: Panel, step: Step, panel': Panel, prior: Backup, b: Backup)
    requires Edited(panel.rows, panel'.rows, step.server, Some(prior), Some(b)) && prior.id == b.id
    requires panel.archives <= panel'.archives && !step.PurgeNext? && !step.TrashNext?
    requires prior.status == Pending ==> step.FinishCreate? && PhaseOf(panel, step.server) == Creating(b.id)
    ensures Safe(panel, step, panel')
  {
    hide Find, Undisturbed;
    FindUnique(panel'.rows, b);
    forall x | x in panel.rows ensures Find(panel'.rows, x.id).Some? {
      if x != prior {
        FindUnique(panel'.rows, x);
      }
    }
  }

  lemma CreateStep(panel: Panel, step: Step)
    requires Inv(panel) && (step.BeginCreate? || step.Upload?) && Next(panel, step).Some?
    ensures Inv(Next(panel, step).value) && Safe(panel, step, Next(panel, step).value)
  {
    hide Listing, Edited, Safe, UniqueIds;
    var rows := panel.rows;
    if step.Upload? && !step.recorded {
      var panel' := Next(panel, step).value;
      NothingEdited(rows, step.server);
      InvAfter(panel, step.server, rows, panel'.archives, Idle, None, None);
      SafeWhenKept(panel, step, panel');
      return;
    }
    var row := if step.BeginCreate? then Backup(step.id, step.server, 0, Pending, step.created, false, Never)
               else Backup(step.id, step.server, step.size, Completed, step.created, false, Never);
    InsertEdits(rows, step.position, row);
    var rows' := Insert(rows, step.position, row);
    assert UniqueIds(rows') && row in rows' by { EditedMembers(rows, rows', step.server, None, Some(row)); }
    FindUnique(rows', row);
    var panel' := Next(panel, step).value;
    InvAfter(panel, step.server, rows', panel'.archives, panel'.phases[step.server], None, Some(row));
    EditedMembers(rows, rows', step.server, None, Some(row));
    SafeWhenKept(panel, step, panel');
  }

  lemma EditedMembers(rows: seq<Backup>, rows': seq<Backup>, server: nat, gone: Option<Backup>, came: Option<Backup>)
    requires Edited(rows, rows', server, gone, came)
    ensures UniqueIds(rows')
    ensures forall b: Backup :: b in rows' <==> (b in rows && gone != Some(b)) || came == Some(b)
  {
  }

  lemma FinishStep(panel: Panel, step: Step)
    requires Inv(panel) && step.FinishCreate? && Next(panel, step).Some?
    ensures Inv(Next(panel, step).value) && Safe(panel, step, Next(panel, step).value)
  {
    hide Listing, Edited, Safe, UniqueIds, Find, Replace;
    var rows, server := panel.rows, step.server;
    var panel' := Next(panel, step).value;
    var prior := Find(rows, PhaseOf(panel, server).id).value;
    if step.outcome.Lost? {
      NothingEdited(rows, server);
      InvAfter(panel, server, rows, panel'.archives, Idle, None, None);
      SafeWhenKept(panel, step, panel');
    } else {
      var row := if step.outcome.Broke? then prior.(status := Failed)
                 else prior.(status := Completed, size := step.outcome.size);
      ReplaceEdits(rows, prior, row);
      InvAfter(panel, server, panel'.rows, panel'.archives, panel'.phases[server], Some(prior), Some(row));
      SafeWhenReplaced(panel, step, panel', prior, row);
    }
  }

  /** Starting an operation, or stopping one, moves no row. */
  lemma EnterStep(panel: Panel, step: Step)
    requires Inv(panel) && (step.BeginChange? || step.BeginRestore? || step.Stop?) && Next(panel, step).Some?
    ensures Inv(Next(panel, step).value) && Safe(panel, step, Next(panel, step).value)
  {
    hide Listing, Edited, Safe;
    var rows, server := panel.rows, step.server;
    var panel' := Next(panel, step).value;
    NothingEdited(rows, server);
    InvAfter(panel, server, rows, panel.archives, panel'.phases[server], None, None);
    SafeWhenKept(panel, step, panel');
  }

  // ---- deleting and changing -------------------------------------------------------------------------------

  lemma DeleteInv(panel: Panel, server: nat, b: Backup, fault: Fault, phase': Phase)
    requires Inv(panel) && b in panel.rows && b.server == server
    requires PhaseOk(DeleteRow(panel.rows, b, fault), server, phase')
    ensures var panel' := Moved(panel, server, DeleteRow(panel.rows, b, fault),
                                DeleteArchive(panel.archives, b, fault), phase');
              Inv(panel')
              && (forall x :: x in panel.rows && Taken(panel, panel', x) ==> x == b && Deletable(b))
              && (forall x :: x in panel.rows && x.status == Pending ==> x in panel'.rows)
  {
    hide Find, Without, Undisturbed, PhaseOk;
    var rows := panel.rows;
    var panel' := Moved(panel, server, DeleteRow(rows, b, fault), DeleteArchive(panel.archives, b, fault), phase');
    var gone := if Deletable(b) && fault == NoFault then Some(b) else None;
    if gone.Some? {
      WithoutEdits(rows, b);
    } else {
      NothingEdited(rows, server);
    }
    InvAfter(panel, server, panel'.rows, panel'.archives, phase', gone, None);
    forall x | x in rows && Taken(panel, panel', x) ensures x == b && Deletable(b) {
      if x.id == b.id {
        SameIdSameRow(rows, x, b);
      } else {
        FindUnique(panel'.rows, x);
      }
      if !Deletable(b) {
        FindUnique(panel'.rows, x);
      }
    }
  }

  lemma ChangeStep(panel: Panel, step: Step)
    requires Inv(panel) && step.ApplyChange? && Next(panel, step).Some?
    ensures Inv(Next(panel, step).value) && Safe(panel, step, Next(panel, step).value)
  {
    hide Listing, Edited, UniqueIds, Find, Replace, Without, Safe;
    var rows, server := panel.rows, step.server;
    var phase := PhaseOf(panel, server);
    var b, change := phase.was, phase.change;
    var panel' := Next(panel, step).value;
    FindUnique(rows, b);
    if change.Delete? || (change.Purge? && b.deleted != Never && !b.guarded) {
      DeleteInv(panel, server, b, step.fault, Idle);
      SafeWhenDeleted(panel, step, panel', b);
    } else if panel'.rows == rows {
      NothingEdited(rows, server);
      InvAfter(panel, server, rows, panel.archives, Idle, None, None);
      SafeWhenKept(panel, step, panel');
    } else {
      var row := if change.ToTrash? then b.(deleted := At(step.at))
                 else if change.Guard? then b.(guarded := change.on)
                 else b.(deleted := Never, guarded := b.status == Completed);
      ReplaceEdits(rows, b, row);
      InvAfter(panel, server, panel'.rows, panel.archives, Idle, Some(b), Some(row));
      SafeWhenReplaced(panel, step, panel', b, row);
    }
  }

  lemma SafeWhenDeleted(panel: Panel, step: Step, panel': Panel, b: Backup)
    requires step.ApplyChange? && b.server == step.server
    requires forall x :: x in panel.rows && Taken(panel, panel', x) ==> x == b && Deletable(b)
    requires forall x :: x in panel.rows && x.status == Pending ==> x in panel'.rows
    ensures Safe(panel, step, panel')
  {
  }

  // ---- cleaning up -------------------------------------------------------------------------------------------

  lemma {:induction false} PurgedUnique(p: Policy, trash: seq<Backup>, now: int)
    requires UniqueIds(trash)
    ensures UniqueIds(Purged(p, trash, now))
    ensures forall b :: b in Purged(p, trash, now) ==> b in trash
  {
    if trash != [] {
      PurgedUnique(p, trash[..|trash| - 1], now);
      assert trash == trash[..|trash| - 1] + [trash[|trash| - 1]];
      LastIsNew(trash);
    }
  }

  lemma {:induction false} TrashedUnique(p: Policy, active: seq<Backup>, now: int)
    requires UniqueIds(active)
    ensures UniqueIds(BackupsOf(Trashed(p, active, now)))
    ensures forall b :: b in BackupsOf(Trashed(p, active, now)) ==> b in active
  {
    hide Trashed, BackupsOf, Decision;
    if active == [] {
      PlanOfNothing(p, now);
    } else {
      var newer := active[..|active| - 1];
      TrashedUnique(p, newer, now);
      TrashedLast(p, active, now);
      assert active == newer + [active[|active| - 1]];
      LastIsNew(active);
    }
  }

  lemma {:induction false} BackupsMember(cs: seq<Candidate>, b: Backup) returns (c: Candidate)
    requires b in BackupsOf(cs)
    ensures c in cs && c.backup == b
  {
    if cs[|cs| - 1].backup == b {
      c := cs[|cs| - 1];
    } else {
      c := BackupsMember(cs[..|cs| - 1], b);
    }
  }

  lemma {:induction false} NewestIn(active: seq<Backup>)
    ensures Newest(active).Some? ==> Newest(active).value in active
  {
    if active != [] {
      NewestIn(active[..|active| - 1]);
    }
  }

  lemma PlannedTrash(rows: seq<Backup>, server: nat, policy: Policy, now: int, b: Backup)
    requires UniqueIds(rows) && b in BackupsOf(Trashed(policy, Listing(rows, server, false), now))
    ensures b in rows && b.server == server && b.deleted == Never && Counted(b) && Spared(rows, server, b.id)
  {
    hide Listing, Trashed, BackupsOf;
    var active := Listing(rows, server, false);
    var c := BackupsMember(Trashed(policy, active, now), b);
    var i := TrashedMember(policy, active, now, c);
    ListingMember(rows, server, false, b);
    ListingUnique(rows, server, false);
    NewestIn(active[..i]);
  }

  lemma CleanupStep(panel: Panel, step: Step)
    requires Inv(panel) && step.BeginCleanup? && Next(panel, step).Some?
    ensures Inv(Next(panel, step).value) && Safe(panel, step, Next(panel, step).value)
  {
    hide Listing, Edited, Safe, Trashed, Purged, BackupsOf, Find;
    var rows, server, policy, now := panel.rows, step.server, step.policy, step.now;
    var panel' := Next(panel, step).value;
    var active, trash := Listing(rows, server, false), Listing(rows, server, true);
    ListingUnique(rows, server, false);
    ListingUnique(rows, server, true);
    PurgedUnique(policy, trash, now);
    TrashedUnique(policy, active, now);
    forall b | b in trash ensures b in rows && b.server == server && b.deleted != Never {
      ListingMember(rows, server, true, b);
    }
    forall b | b in Purged(policy, trash, now) ensures Due(policy, now, b) {
      PurgedMember(policy, trash, now, b);
    }
    forall b | b in BackupsOf(Trashed(policy, active, now))
      ensures b in rows && b.server == server && b.deleted == Never && Counted(b) && Spared(rows, server, b.id)
    {
      PlannedTrash(rows, server, policy, now, b);
    }
    NothingEdited(rows, server);
    InvAfter(panel, server, rows, panel.archives, panel'.phases[server], None, None);
    SafeWhenKept(panel, step, panel');
  }

  /** Purging a trashed row changes no list of active backups. */
  lemma NewestAfterDelete(rows: seq<Backup>, b: Backup, fault: Fault)
    requires UniqueIds(rows) && b in rows && b.deleted != Never
    ensures forall t: nat :: NewestOf(DeleteRow(rows, b, fault), t) == NewestOf(rows, t)
  {
    hide Newest, Listing, Without, UniqueIds;
    if Deletable(b) && fault == NoFault {
      forall t: nat ensures NewestOf(Without(rows, b.id), t) == NewestOf(rows, t) {
        ListingOfWithout(rows, b, t, false);
      }
    }
  }

  lemma PurgeStep(panel: Panel, step: Step)
    requires Inv(panel) && step.PurgeNext? && Next(panel, step).Some?
    ensures Inv(Next(panel, step).value) && Safe(panel, step, Next(panel, step).value)
  {
    hide Listing, Newest, Without, Find;
    var rows, server := panel.rows, step.server;
    var phase := PhaseOf(panel, server);
    var b := phase.purge[0];
    var rest := phase.(purge := phase.purge[1..]);
    var panel' := Next(panel, step).value;
    NewestAfterDelete(rows, b, step.fault);
    forall x | (x in phase.purge[1..] || x in phase.trash) ensures x in panel'.rows {
      if x in phase.purge[1..] {
        var i :| 0 <= i < |phase.purge[1..]| && phase.purge[1..][i] == x;
        assert phase.purge[i + 1] == x;
      }
      WithoutMember(rows, b.id, x);
      if x.id == b.id {
        SameIdSameRow(rows, x, b);
      }
    }
    DeleteInv(panel, server, b, step.fault, rest);
  }

  /** Trashing a spared row leaves every server its newest snapshot. */
  lemma NewestAfterTrashing(rows: seq<Backup>, b: Backup, at: int, ok: bool)
    requires UniqueIds(rows) && b in rows && Spared(rows, b.server, b.id)
    ensures forall t: nat :: NewestOf(TrashRow(rows, b, at, ok), t) == NewestOf(rows, t)
  {
    hide Newest, Listing, Replace, Find;
    FindUnique(rows, b);
    var row := b.(deleted := At(at));
    forall t: nat ensures NewestOf(Replace(rows, row), t) == NewestOf(rows, t) {
      if t == b.server {
        forall i | 0 <= i < |rows| && rows[i].id == b.id ensures rows[i] == b {
          SameIdSameRow(rows, rows[i], b);
        }
        NewestAfterTrash(rows, b, row, t);
      } else {
        ListingOfReplace(rows, b, row, t, false);
      }
    }
  }

  /** What is still planned is still in the table after the first planned row has moved. */
  lemma RestStays(rows: seq<Backup>, trash: seq<Backup>, row: Backup)
    requires UniqueIds(rows) && UniqueIds(trash) && trash != [] && trash[0].id == row.id
    requires forall b :: b in trash ==> b in rows
    ensures UniqueIds(trash[1..]) && forall b :: b in trash[1..] ==> b in Replace(rows, row)
  {
    forall x | x in trash[1..] ensures x in Replace(rows, row) {
      var i :| 0 <= i < |trash[1..]| && trash[1..][i] == x;
      assert trash[i + 1] == x && x.id != row.id;
      ReplaceMember(rows, trash[0], row, x);
    }
  }

  lemma TrashStep(panel: Panel, step: Step)
    requires Inv(panel) && step.TrashNext? && Next(panel, step).Some?
    ensures Inv(Next(panel, step).value) && Safe(panel, step, Next(panel, step).value)
  {
    hide Listing, Newest, Replace, Find, Undisturbed, NewestOf, UniqueIds, Edited, Due, RowOk;
    var rows, server := panel.rows, step.server;
    var phase := PhaseOf(panel, server);
    var b := phase.trash[0];
    var rest := phase.(trash := phase.trash[1..]);
    var panel' := Next(panel, step).value;
    var row := b.(deleted := At(step.at));
    NewestAfterTrashing(rows, b, step.at, step.ok);
    FindUnique(rows, b);
    RestStays(rows, phase.trash, row);
    if panel'.rows == rows {
      NothingEdited(rows, server);
      InvAfter(panel, server, rows, panel.archives, rest, None, None);
      forall x | x in rows ensures Find(rows, x.id).Some? {
        FindUnique(rows, x);
      }
    } else {
      assert panel'.rows == Replace(rows, row);
      ReplaceEdits(rows, b, row);
      assert RowOk(row) by { TrashedRowOk(b, row); }
      InvAfter(panel, server, panel'.rows, panel.archives, rest, Some(b), Some(row));
      EditedMembers(rows, panel'.rows, server, Some(b), Some(row));
      forall x | x in rows ensures Find(panel'.rows, x.id).Some? {
        FindUnique(panel'.rows, if x == b then row else x);
      }
    }
  }

  lemma TrashedRowOk(b: Backup, row: Backup)
    requires Counted(b) && row == b.(deleted := row.deleted)
    ensures RowOk(row)
  {
  }

  /** Every step of every operation keeps the invariant and is safe. */
  lemma StepIsSafe(panel: Panel, step: Step)
    requires Inv(panel) && Next(panel, step).Some?
    ensures Inv(Next(panel, step).value) && Safe(panel, step, Next(panel, step).value)
  {
    hide Inv, Safe;
    match step
    case BeginCreate(_, _, _, _) => CreateStep(panel, step);
    case Upload(_, _, _, _, _, _) => CreateStep(panel, step);
    case FinishCreate(_, _) => FinishStep(panel, step);
    case ApplyChange(_, _, _) => ChangeStep(panel, step);
    case BeginCleanup(_, _, _, _) => CleanupStep(panel, step);
    case PurgeNext(_, _) => PurgeStep(panel, step);
    case TrashNext(_, _, _) => TrashStep(panel, step);
    case _ => EnterStep(panel, step);
  }

  // ---- whole runs ----------------------------------------------------------------------------------------------

  /** The panel after a run, skipping steps that are not possible. */
  function Run(panel: Panel, steps: seq<Step>): Panel {
    if steps == [] then panel
    else
      var before := Run(panel, steps[..|steps| - 1]);
      var after := Next(before, steps[|steps| - 1]);
      if after.Some? then after.value else before
  }

  /** Over any run of any operations on any servers: protected backups are completed and active,
      pending ones are not in trash, every operation in progress still finds the rows it works from,
      and the last step (so every step) was safe. */
  lemma {:induction false} RunIsSafe(panel: Panel, steps: seq<Step>)
    requires Inv(panel)
    ensures Inv(Run(panel, steps))
    ensures steps != [] ==>
      var before, last := Run(panel, steps[..|steps| - 1]), steps[|steps| - 1];
        Next(before, last).Some? ==> Safe(before, last, Run(panel, steps))
  {
    hide Inv, Safe, Next;
    if steps != [] {
      RunIsSafe(panel, steps[..|steps| - 1]);
      var before, last := Run(panel, steps[..|steps| - 1]), steps[|steps| - 1];
      if Next(before, last).Some? {
        StepIsSafe(before, last);
      }
    }
  }

  // ---- one cleanup, from its plan to its end -------------------------------------------------------------------

  /** No backup changes hands. */
  ghost predicate SameServers(rows: seq<Backup>, rows': seq<Backup>) {
    forall b, b' :: b in rows && b' in rows' && b.id == b'.id ==> b'.server == b.server
  }

  lemma SameServersAfterReplace(rows: seq<Backup>, row: Backup)
    requires UniqueIds(rows) && (Find(rows, row.id).Some? ==> Find(rows, row.id).value.server == row.server)
    ensures SameServers(rows, Replace(rows, row))
  {
    hide Find, Replace;
    forall b, b' | b in rows && b' in Replace(rows, row) && b.id == b'.id ensures b'.server == b.server {
      FindUnique(rows, b);
      var i :| 0 <= i < |rows| && Replace(rows, row)[i] == b';
      SameIdSameRow(rows, rows[i], b);
    }
  }

  lemma SameServersAfterWithout(rows: seq<Backup>, id: nat)
    requires UniqueIds(rows)
    ensures SameServers(rows, rows) && SameServers(rows, Without(rows, id))
  {
    forall b, b' | b in rows && b' in rows && b.id == b'.id ensures b'.server == b.server {
      SameIdSameRow(rows, b, b');
    }
    forall b' | b' in Without(rows, id) ensures b' in rows {
      WithoutMember(rows, id, b');
    }
  }

  lemma SameServersAfterInsert(rows: seq<Backup>, position: nat, row: Backup)
    requires UniqueIds(rows) && position <= |rows| && Find(rows, row.id).None?
    ensures SameServers(rows, Insert(rows, position, row))
  {
    InsertMembers(rows, position, row);
    SameServersAfterWithout(rows, row.id);
  }

  lemma StepKeepsServers(panel: Panel, step: Step)
    requires UniqueIds(panel.rows) && Next(panel, step).Some?
    ensures SameServers(panel.rows, Next(panel, step).value.rows)
  {
    hide Find, Replace, Without, Insert, SameServers, UniqueIds, CleanupPhase;
    var rows := panel.rows;
    SameServersAfterWithout(rows, 0);
    var phase := PhaseOf(panel, step.server);
    match step
    case BeginCreate(server, id, position, created) =>
      SameServersAfterInsert(rows, position, Backup(id, server, 0, Pending, created, false, Never));
    case Upload(server, id, position, created, size, _) =>
      SameServersAfterInsert(rows, position, Backup(id, server, size, Completed, created, false, Never));
    case FinishCreate(_, outcome) =>
      var row := Find(rows, phase.id);
      if row.Some? {
        SameServersAfterReplace(rows, row.value.(status := Failed));
        if outcome.Succeeded? {
          SameServersAfterReplace(rows, row.value.(status := Completed, size := outcome.size));
        }
      }
    case ApplyChange(_, at, _) =>
      ChangeKeepsServers(rows, phase.was, phase.change, at, step.fault);
    case PurgeNext(_, _) => SameServersAfterWithout(rows, phase.purge[0].id);
    case TrashNext(_, at, ok) =>
      ChangeKeepsServers(rows, phase.trash[0], ToTrash, at, if ok then NoFault else RowStays);
    case _ =>
  }

  lemma ChangeKeepsServers(rows: seq<Backup>, b: Backup, change: Change, at: int, fault: Fault)
    requires UniqueIds(rows)
    ensures SameServers(rows, ChangeRow(rows, b, change, at, fault))
  {
    hide Find, Replace, Without, SameServers, UniqueIds;
    SameServersAfterWithout(rows, b.id);
    var row := Find(rows, b.id);
    if row.Some? {
      SameServersAfterReplace(rows, row.value.(deleted := At(at)));
      SameServersAfterReplace(rows, row.value.(deleted := Never, guarded := row.value.status == Completed));
      if change.Guard? {
        SameServersAfterReplace(rows, row.value.(guarded := change.on));
      }
    }
  }

  /** This backup's row is still there if it was, and so is its archive. */
  ghost predicate KeepsId(panel: Panel, panel': Panel, id: nat) {
    (Find(panel.rows, id).Some? ==> Find(panel'.rows, id).Some?) && (id in panel.archives ==> id in panel'.archives)
  }

  /** The cleanup of a server is going on, and will not purge this backup of it, whose row is there. */
  ghost predicate Sparing(panel: Panel, server: nat, id: nat) {
    && Find(panel.rows, id).Some? && Find(panel.rows, id).value.server == server
    && PhaseOf(panel, server).Cleaning?
    && forall b :: b in PhaseOf(panel, server).purge ==> b.id != id
  }

  lemma StepSpares(panel: Panel, step: Step, server: nat, id: nat)
    requires Inv(panel) && Next(panel, step).Some? && Sparing(panel, server, id)
    requires !(step.Stop? && step.server == server)
    ensures Sparing(Next(panel, step).value, server, id)
    ensures id in panel.archives ==> id in Next(panel, step).value.archives
  {
    hide Find, DeleteRow, DeleteArchive, TrashRow, CleanupPhase, ChangeRow, ChangeArchive, Replace, UniqueIds, PhaseOk;
    StepIsSafe(panel, step);
    StepKeepsServers(panel, step);
    var panel' := Next(panel, step).value;
    var phase := PhaseOf(panel, server);
    if step.server == server {
      assert step.PurgeNext? || step.TrashNext?;
      assert phase.purge != [] ==> forall x :: x in phase.purge[1..] ==> x in phase.purge;
    }
    assert !Taken(panel, panel', Find(panel.rows, id).value);
  }

  /** While a cleanup goes on, whatever the other servers do, a backup it did not plan to purge keeps its
      row and its archive. */
  lemma {:induction false} CleanupSpares(panel: Panel, steps: seq<Step>, server: nat, id: nat)
    requires Inv(panel) && Sparing(panel, server, id) && Stop(server) !in steps
    ensures Sparing(Run(panel, steps), server, id)
    ensures id in panel.archives ==> id in Run(panel, steps).archives
  {
    hide Inv, Next, Sparing;
    if steps != [] {
      var init, last := steps[..|steps| - 1], steps[|steps| - 1];
      CleanupSpares(panel, init, server, id);
      RunIsSafe(panel, init);
      assert last in steps;
      if Next(Run(panel, init), last).Some? {
        StepSpares(Run(panel, init), last, server, id);
      }
    }
  }

  /** So a cleanup never takes what was not in trash when it began, and in particular nothing that it
      moved to trash itself. */
  lemma CleanupSparesActive(panel: Panel, begin: Step, steps: seq<Step>, b: Backup)
    requires Inv(panel) && begin.BeginCleanup? && Next(panel, begin).Some? && Stop(begin.server) !in steps
    requires b in panel.rows && b.server == begin.server && b.deleted == Never
    ensures var after := Run(Next(panel, begin).value, steps);
      Find(after.rows, b.id).Some? && (b.id in panel.archives ==> b.id in after.archives)
  {
    hide Listing, Trashed, Purged, BackupsOf, Find, Run, PhaseOk;
    StepIsSafe(panel, begin);
    FindUnique(panel.rows, b);
    var panel' := Next(panel, begin).value;
    forall x | x in PhaseOf(panel', begin.server).purge ensures x.id != b.id {
      var trash := Listing(panel.rows, begin.server, true);
      if !begin.emptyTrash {
        PurgedMember(begin.policy, trash, begin.now, x);
      }
      ListingMember(panel.rows, begin.server, true, x);
      if x.id == b.id {
        SameIdSameRow(panel.rows, x, b);
      }
    }
    CleanupSpares(panel', steps, begin.server, b.id);
  }

  /** This server's cleanup, if one goes on, is past its purges. */
  ghost predicate NotPurging(panel: Panel, server: nat) {
    PhaseOf(panel, server).Cleaning? ==> PhaseOf(panel, server).purge == []
  }

  lemma StaysNotPurging(panel: Panel, step: Step, server: nat)
    requires NotPurging(panel, server) && Next(panel, step).Some? && !(step.BeginCleanup? && step.server == server)
    ensures NotPurging(Next(panel, step).value, server)
  {
    hide CleanupPhase, DeleteRow, DeleteArchive, TrashRow, ChangeRow, ChangeArchive, Find, Replace, Insert;
  }

  /** A step leaves the other servers' rows alone. */
  lemma StepFramesOthers(panel: Panel, step: Step, server: nat)
    requires Inv(panel) && Next(panel, step).Some? && step.server != server
    ensures Undisturbed(panel.rows, Next(panel, step).value.rows, server)
    ensures NewestOf(Next(panel, step).value.rows, server) == NewestOf(panel.rows, server)
  {
    hide Find, Replace, Without, Insert, Undisturbed, Listing, Newest, CleanupPhase, UniqueIds;
    var rows := panel.rows;
    var rows' := Next(panel, step).value.rows;
    var phase := PhaseOf(panel, step.server);
    NothingEdited(rows, step.server);
    match step {
      case BeginCreate(s, id, position, created) =>
        InsertEdits(rows, position, Backup(id, s, 0, Pending, created, false, Never));
      case Upload(s, id, position, created, size, _) =>
        InsertEdits(rows, position, Backup(id, s, size, Completed, created, false, Never));
      case FinishCreate(_, outcome) =>
        var row := Find(rows, phase.id).value;
        ReplaceEdits(rows, row, row.(status := Failed));
        if outcome.Succeeded? {
          ReplaceEdits(rows, row, row.(status := Completed, size := outcome.size));
        }
      case ApplyChange(_, at, fault) => ChangeFramesOthers(rows, phase.was, phase.change, at, fault, server);
      case PurgeNext(_, _) => WithoutEdits(rows, phase.purge[0]);
      case TrashNext(_, at, ok) =>
        ChangeFramesOthers(rows, phase.trash[0], ToTrash, at, if ok then NoFault else RowStays, server);
      case _ =>
    }
    UndisturbedNewest(rows, rows', server);
  }

  lemma UndisturbedNewest(rows: seq<Backup>, rows': seq<Backup>, server: nat)
    requires Undisturbed(rows, rows', server)
    ensures NewestOf(rows', server) == NewestOf(rows, server)
  {
    hide Listing, Newest;
  }

  lemma ChangeFramesOthers(rows: seq<Backup>, b: Backup, change: Change, at: int, fault: Fault, server: nat)
    requires UniqueIds(rows) && b in rows && b.server != server
    ensures Undisturbed(rows, ChangeRow(rows, b, change, at, fault), server)
  {
    hide Find, Replace, Without, Undisturbed, UniqueIds;
    FindUnique(rows, b);
    NothingEdited(rows, b.server);
    ReplaceEdits(rows, b, b.(deleted := At(at)));
    ReplaceEdits(rows, b, b.(deleted := Never, guarded := b.status == Completed));
    if change.Guard? {
      ReplaceEdits(rows, b, b.(guarded := change.on));
    }
    WithoutEdits(rows, b);
  }

  /** While a cleanup goes on, whatever the other servers do, its server keeps its newest active completed
      snapshot. */
  lemma {:induction false} CleanupKeepsNewest(panel: Panel, steps: seq<Step>, server: nat)
    requires Inv(panel) && PhaseOf(panel, server).Cleaning? && Stop(server) !in steps
    ensures PhaseOf(Run(panel, steps), server).Cleaning?
    ensures NewestOf(Run(panel, steps).rows, server) == NewestOf(panel.rows, server)
  {
    hide Inv, Next, NewestOf;
    if steps != [] {
      var init, last := steps[..|steps| - 1], steps[|steps| - 1];
      CleanupKeepsNewest(panel, init, server);
      RunIsSafe(panel, init);
      assert last in steps;
      if Next(Run(panel, init), last).Some? {
        StepKeepsNewest(Run(panel, init), last, server);
      }
    }
  }

  lemma StepKeepsNewest(panel: Panel, step: Step, server: nat)
    requires Inv(panel) && Next(panel, step).Some? && PhaseOf(panel, server).Cleaning?
    requires !(step.Stop? && step.server == server)
    ensures PhaseOf(Next(panel, step).value, server).Cleaning?
    ensures NewestOf(Next(panel, step).value.rows, server) == NewestOf(panel.rows, server)
  {
    hide Inv, NewestOf, Find, DeleteRow, DeleteArchive, TrashRow, CleanupPhase, ChangeRow, ChangeArchive, Replace;
    hide Insert;
    if step.server == server {
      StepIsSafe(panel, step);
      assert step.PurgeNext? || step.TrashNext?;
    } else {
      StepFramesOthers(panel, step, server);
    }
  }

  /** The two loops come in this order: once a cleanup has begun to move backups to trash, it purges
      nothing more, for as long as it goes on and until another one begins. */
  lemma {:induction false} NoPurgeAfterTrash(panel: Panel, first: Step, steps: seq<Step>, fault: Fault)
    requires first.TrashNext? && Next(panel, first).Some?
    requires forall i :: 0 <= i < |steps| && steps[i].server == first.server ==> !steps[i].BeginCleanup?
    ensures NotPurging(Run(Next(panel, first).value, steps), first.server)
    ensures Next(Run(Next(panel, first).value, steps), PurgeNext(first.server, fault)).None?
  {
    hide CleanupPhase, DeleteRow, DeleteArchive, TrashRow, ChangeRow, ChangeArchive, Find, Replace, Insert;
    if steps != [] {
      var init, last := steps[..|steps| - 1], steps[|steps| - 1];
      NoPurgeAfterTrash(panel, first, init, fault);
      var before := Run(Next(panel, first).value, init);
      if Next(before, last).Some? {
        StaysNotPurging(before, last, first.server);
      }
    }
  }

  lemma {:induction false} RunConcat(panel: Panel, first: seq<Step>, more: seq<Step>)
    ensures Run(panel, first + more) == Run(Run(panel, first), more)
    decreases |more|
  {
    hide Next;
    if more == [] {
      assert first + more == first;
    } else {
      var init := more[..|more| - 1];
      RunConcat(panel, first, init);
      assert (first + more)[..|first + more| - 1] == first + init;
    }
  }

  /** In particular from an empty table. */
  lemma FirstRunIsSafe(steps: seq<Step>)
    ensures Inv(Run(Panel([], {}, map[]), steps))
  {
    RunIsSafe(Panel([], {}, map[]), steps);
  }
}
