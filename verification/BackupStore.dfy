/**
  The store's own methods (internal/backups/retention.go and backups.go), changing the table in place
  under the server's lock. Each is proved to be a run of the steps of module BackupRecords, so what
  holds over every run holds over whatever sequence of calls is made.
 */
module BackupStore {
  import opened Options
  import opened Retention
  import opened BackupRecords
  import opened BackupCleanup
  import opened BackupLifecycle

  class Store {
    var rows: seq<Backup>
    var archives: set<nat>
    ghost var phases: map<nat, Phase>

    ghost function State(): Panel
      reads this
    {
      Panel(rows, archives, phases)
    }

    /** Nobody holds this server's lock. */
    ghost predicate Free(server: nat)
      reads this
    {
      PhaseOf(State(), server) == Idle
    }

    method TrashLocked(b: Backup, at: int, ok: bool) returns (done: bool)
      modifies this`rows
      ensures rows == TrashRow(old(rows), b, at, ok)
      ensures done == (!b.guarded && b.status != Pending && (b.deleted != Never || ok))
    {
      if b.guarded || b.status == Pending {
        return false;
      }
      if b.deleted != Never {
        return true;
      }
      var row := Find(rows, b.id);
      if ok && row.Some? {
        rows := Replace(rows, row.value.(deleted := At(at)));
      }
      return ok;
    }

    method DeleteLocked(b: Backup, fault: Fault) returns (done: bool)
      modifies this`rows, this`archives
      ensures rows == DeleteRow(old(rows), b, fault) && archives == DeleteArchive(old(archives), b, fault)
      ensures done == (Deletable(b) && fault == NoFault)
    {
      if b.guarded || b.status == Pending {
        return false;
      }
      if fault == ArchiveStays {
        return false;
      }
      archives := archives - {b.id};
      if fault == RowStays {
        return false;
      }
      rows := Without(rows, b.id);
      return true;
    }

    /** The change itself, on the row that was read under the lock. */
    method ApplyLocked(b: Backup, change: Change, at: int, fault: Fault) returns (done: bool)
      requires Find(rows, b.id) == Some(b)
      modifies this`rows, this`archives
      ensures rows == ChangeRow(old(rows), b, change, at, fault)
      ensures archives == ChangeArchive(old(archives), b, change, fault)
      ensures done == Reported(b, change, fault)
    {
      match change {
        case ToTrash => done := TrashLocked(b, at, fault == NoFault);
        case FromTrash =>
          done := b.deleted != Never && fault == NoFault;
          if done {
            rows := Replace(rows, b.(deleted := Never, guarded := b.status == Completed));
          }
        case Guard(on) =>
          done := b.deleted == Never && b.status == Completed && fault == NoFault;
          if done {
            rows := Replace(rows, b.(guarded := on));
          }
        case Purge =>
          if b.deleted == Never || b.guarded {
            done := false;
          } else {
            done := DeleteLocked(b, fault);
          }
        case Delete => done := DeleteLocked(b, fault);
      }
    }

    /** changeBackup around Trash, Recover, Protect, Purge and Delete: read the row, take the lock, read
        it again, change it. A row that is gone or a change that is refused reports failure. */
    method ChangeBackup(id: nat, change: Change, at: int, fault: Fault)
      returns (done: bool, ghost steps: seq<Step>)
      requires Inv(State()) && (Find(rows, id).Some? ==> Free(Find(rows, id).value.server))
      modifies this
      ensures State() == Run(old(State()), steps) && Inv(State())
      ensures old(Find(rows, id)).Some? ==>
        var b := old(Find(rows, id)).value;
          steps == [BeginChange(b.server, id, change), ApplyChange(b.server, at, fault)]
      ensures old(Find(rows, id)).None? ==> !done && steps == []
      // success is reported exactly for a change the row allows whose statements all worked, and then
      // the backup is as asked; otherwise no row has changed; and no other row changes either way
      ensures done <==> old(Find(rows, id)).Some? && Reported(old(Find(rows, id)).value, change, fault)
      ensures done ==> Achieved(State(), old(Find(rows, id)).value, change, at)
      ensures !done ==> rows == old(rows)
      ensures OthersKept(old(rows), rows, id)
    {
      var row := Find(rows, id);
      steps := [];
      if row.None? {
        return false, steps;
      }
      var b := row.value;
      ghost var begin := BeginChange(b.server, id, change);
      ghost var apply := ApplyChange(b.server, at, fault);
      ghost var start := State();
      RunStep(start, [], begin);
      RunStep(start, [begin], apply);
      assert [] + [begin] == [begin] && [begin] + [apply] == [begin, apply];
      steps := [begin, apply];
      phases := phases[b.server := Changing(b, change)];
      ReportedIsAchieved(start, b, change, at, fault);
      done := ApplyLocked(b, change, at, fault);
      phases := phases[b.server := Idle];
      RunIsSafe(start, steps);
    }

    /** The body of the purge loop: a failure is reported and the loop goes on. */
    method PurgeOne(server: nat, b: Backup, fault: Fault) returns (done: bool)
      requires Inv(State()) && PhaseOf(State(), server).Cleaning?
      requires PhaseOf(State(), server).purge != [] && PhaseOf(State(), server).purge[0] == b
      modifies this
      ensures Next(old(State()), PurgeNext(server, fault)) == Some(State()) && Inv(State())
      ensures PhaseOf(State(), server) == old(PhaseOf(State(), server).(purge := PhaseOf(State(), server).purge[1..]))
      ensures forall t: nat :: NewestOf(rows, t) == NewestOf(old(rows), t)
      ensures Cleaned(old(State()), State(), server, [b], if done then 1 else 0, 0)
      ensures done == (fault == NoFault)
      ensures rows == if done then Without(old(rows), b.id) else old(rows)
      ensures archives == if fault != ArchiveStays then old(archives) - {b.id} else old(archives)
    {
      hide Inv, Safe, NewestOf, Next, Without, Cleaned;
      PurgedAreDeletable(State(), server, b);
      PurgeCleans(State(), server, b, fault);
      ghost var step := PurgeNext(server, fault);
      ghost var phase := PhaseOf(State(), server);
      PurgeNextIs(State(), step);
      StepIsSafe(State(), step);
      SafeKeepsNewest(State(), step);
      done := false;
      if !b.guarded {
        done := DeleteLocked(b, fault);
      }
      phases := phases[server := phase.(purge := phase.purge[1..])];
    }

    /** The body of the trash loop. */
    method TrashOne(server: nat, b: Backup, at: int, ok: bool) returns (done: bool)
      requires Inv(State()) && PhaseOf(State(), server).Cleaning? && PhaseOf(State(), server).purge == []
      requires PhaseOf(State(), server).trash != [] && PhaseOf(State(), server).trash[0] == b
      modifies this
      ensures Next(old(State()), TrashNext(server, at, ok)) == Some(State()) && Inv(State())
      ensures PhaseOf(State(), server) == old(PhaseOf(State(), server).(trash := PhaseOf(State(), server).trash[1..]))
      ensures forall t: nat :: NewestOf(rows, t) == NewestOf(old(rows), t)
      ensures Cleaned(old(State()), State(), server, [], 0, if done then 1 else 0)
      ensures done == ok && archives == old(archives)
      ensures rows == if done then Replace(old(rows), b.(deleted := At(at))) else old(rows)
    {
      hide Inv, Safe, NewestOf, Next, Replace, Find, Cleaned;
      TrashCleans(State(), server, b, at, ok);
      ghost var step := TrashNext(server, at, ok);
      ghost var phase := PhaseOf(State(), server);
      TrashNextIs(State(), step);
      StepIsSafe(State(), step);
      SafeKeepsNewest(State(), step);
      done := TrashLocked(b, at, ok);
      phases := phases[server := phase.(trash := phase.trash[1..])];
    }

    /** The purge loop of a cleanup. */
    method PurgeAll(server: nat, toPurge: seq<Backup>, faults: nat -> Fault)
      returns (purged: nat, ghost steps: seq<Step>)
      requires Inv(State()) && PhaseOf(State(), server).Cleaning? && PhaseOf(State(), server).purge == toPurge
      modifies this
      ensures State() == Run(old(State()), steps) && Inv(State()) && purged <= |toPurge|
      ensures PhaseOf(State(), server) == old(PhaseOf(State(), server)).(purge := [])
      ensures forall t: nat :: NewestOf(rows, t) == NewestOf(old(rows), t)
      ensures Cleaned(old(State()), State(), server, toPurge, purged, 0)
      ensures rows == Swept(old(rows), Done(toPurge, faults), {}, 0) && purged == |Done(toPurge, faults)|
      ensures archives == old(archives) - Unarchived(toPurge, faults)
    {
      hide Inv, NewestOf, Next, Run, PhaseOf, Cleaned, Swept, Done, Unarchived, Without, UniqueIds;
      ghost var start := State();
      PlannedAreUnique(start, server);
      SweptNothing(rows, 0);
      NothingDone(toPurge, faults);
      NothingCleaned(start, server, toPurge);
      purged, steps := 0, [];
      RunStep(start, [], Stop(server));
      var i, todo := 0, toPurge;
      while todo != []
        invariant i + |todo| == |toPurge| && purged <= i
        invariant State() == Run(start, steps) && Inv(State())
        invariant PhaseOf(State(), server) == PhaseOf(start, server).(purge := todo)
        invariant forall t: nat :: NewestOf(rows, t) == NewestOf(start.rows, t)
        invariant Cleaned(start, State(), server, toPurge, purged, 0) && todo == toPurge[i..]
        invariant rows == Swept(start.rows, Done(toPurge[..i], faults), {}, 0)
        invariant purged == |Done(toPurge[..i], faults)|
        invariant archives == start.archives - Unarchived(toPurge[..i], faults)
        decreases |todo|
      {
        OneMorePurged(start.rows, toPurge, i, faults);
        var fault := faults(i);
        RunStep(start, steps, PurgeNext(server, fault));
        ghost var before := State();
        var done := PurgeOne(server, todo[0], fault);
        CleanedMore(start, before, State(), server, toPurge, [todo[0]], purged, 0, if done then 1 else 0, 0);
        steps := steps + [PurgeNext(server, fault)];
        purged := if done then purged + 1 else purged;
        i, todo := i + 1, todo[1..];
      }
      assert toPurge[..i] == toPurge;
    }

    /** The trash loop of a cleanup. */
    method TrashAll(server: nat, toTrash: seq<Backup>, at: int, faults: nat -> Fault)
      returns (trashed: nat, ghost steps: seq<Step>)
      requires Inv(State()) && PhaseOf(State(), server).Cleaning?
      requires PhaseOf(State(), server).purge == [] && PhaseOf(State(), server).trash == toTrash
      modifies this
      ensures State() == Run(old(State()), steps) && Inv(State()) && trashed <= |toTrash|
      ensures PhaseOf(State(), server) == old(PhaseOf(State(), server)).(trash := [])
      ensures forall t: nat :: NewestOf(rows, t) == NewestOf(old(rows), t)
      ensures Cleaned(old(State()), State(), server, [], 0, trashed)
      ensures rows == Swept(old(rows), {}, Done(toTrash, faults), at) && trashed == |Done(toTrash, faults)|
      ensures archives == old(archives)
    {
      hide Inv, NewestOf, Next, Run, PhaseOf, Cleaned, Swept, Done, Replace, UniqueIds, Identified;
      ghost var start := State();
      PlannedAreUnique(start, server);
      SweptNothing(rows, at);
      NothingDone(toTrash, faults);
      NothingCleaned(start, server, []);
      trashed, steps := 0, [];
      RunStep(start, [], Stop(server));
      var i, todo := 0, toTrash;
      while todo != []
        invariant i + |todo| == |toTrash| && trashed <= i
        invariant State() == Run(start, steps) && Inv(State())
        invariant PhaseOf(State(), server) == PhaseOf(start, server).(trash := todo)
        invariant forall t: nat :: NewestOf(rows, t) == NewestOf(start.rows, t)
        invariant Cleaned(start, State(), server, [], 0, trashed) && todo == toTrash[i..]
        invariant rows == Swept(start.rows, {}, Done(toTrash[..i], faults), at) && archives == start.archives
        invariant trashed == |Done(toTrash[..i], faults)|
        decreases |todo|
      {
        OneMoreMoved(start.rows, toTrash, i, faults, at);
        var ok := faults(i) == NoFault;
        RunStep(start, steps, TrashNext(server, at, ok));
        ghost var before := State();
        var done := TrashOne(server, todo[0], at, ok);
        CleanedMore(start, before, State(), server, [], [], 0, trashed, 0, if done then 1 else 0);
        steps := steps + [TrashNext(server, at, ok)];
        trashed := if done then trashed + 1 else trashed;
        i, todo := i + 1, todo[1..];
      }
      assert toTrash[..i] == toTrash;
    }

    /** cleanupLocked, called for itself or when a backup has just been stored: one plan, then its purges,
        then its moves to trash. `faults` and `misses` say which statement of each loop fails, and how, and
        `binned` and `older` are the rows it takes one by one: exactly those that may go and those that have
        to move. Each is dealt with unless its own statement fails, the two numbers reported count the ones
        that were, the newest snapshot of every server stays, and everything else is as it was. */
    method CleanupLocked(server: nat, policy: Policy, now: int, emptyTrash: bool, at: int,
                         faults: nat -> Fault, misses: nat -> Fault)
      returns (trashed: nat, purged: nat, ghost steps: seq<Step>,
               ghost binned: seq<Backup>, ghost older: seq<Backup>)
      requires Inv(State()) && ValidPolicy(policy)
      requires Free(server) || (PhaseOf(State(), server) == Retaining && !emptyTrash)
      modifies this
      ensures steps != [] && steps[0] == BeginCleanup(server, policy, now, emptyTrash)
      ensures State() == Run(old(State()), steps) && Inv(State()) && Free(server)
      ensures forall t: nat :: NewestOf(rows, t) == NewestOf(old(rows), t)
      ensures CleanedUp(old(State()), State(), server, policy, now, emptyTrash, at, binned, older, faults, misses)
      ensures purged == |Done(binned, faults)| && trashed == |Done(older, misses)|
      ensures emptyTrash ==> trashed == 0
      ensures |rows| + purged == |old(rows)|
      ensures |Listing(rows, server, false)| + trashed == |Listing(old(rows), server, false)|
      ensures forall b :: b in old(rows) && !MayGo(b, server, policy, now, emptyTrash) ==>
        KeepsId(old(State()), State(), b.id)
    {
      hide Next, Inv, Safe, NewestOf, CleanupPhase, Listing, Run, Cleaned, Find, MayGo, UniqueIds;
      hide Swept, Done, Unarchived, CleanedUp, Trashed, Purged, BackupsOf;
      ghost var start := State();
      var active, bin := Listing(rows, server, false), Listing(rows, server, true);
      var plan := PlanRetention(policy, active, bin, now);
      var toPurge := plan.toPurge;
      var toTrash := BackupsOf(plan.toTrash);
      if emptyTrash {
        toPurge, toTrash := bin, [];
      }
      ghost var begin := BeginCleanup(server, policy, now, emptyTrash);
      ghost var phase := Cleaning(policy, now, !emptyTrash, toPurge, toTrash);
      PhaseOfPlan(rows, server, policy, now, emptyTrash);
      CleanupBegins(start, begin);
      RunStep(start, [], begin);
      assert [] + [begin] == [begin];
      phases := phases[server := phase];
      binned, older := toPurge, toTrash;
      PlannedAreUnique(State(), server);
      ghost var purges: seq<Step>, moves: seq<Step>;
      ghost var planned := State();
      purged, purges := PurgeAll(server, toPurge, faults);
      ghost var purgedState := State();
      trashed, moves := TrashAll(server, toTrash, at, misses);
      CleanedMore(planned, purgedState, State(), server, toPurge, [], purged, 0, 0, trashed);
      SweptTwice(start.rows, Done(binned, faults), Done(older, misses), at);
      CleanedMeans(start, planned, State(), server, policy, now, emptyTrash, toPurge, purged, trashed);
      ghost var stop := Stop(server);
      StopIs(State(), stop);
      StepIsSafe(State(), stop);
      RunParts(start, begin, purges, moves, stop);
      steps := [begin] + purges + moves + [stop];
      phases := phases[server := Idle];
      PlanIsCarriedOut(start, State(), server, policy, now, emptyTrash, at, binned, older, faults, misses);
    }
  }

  /** What a stretch of a cleanup did: so many rows went and so many moved to trash, and all but the
      planned rows and archives are still there. */
  ghost predicate Cleaned(p: Panel, p': Panel, server: nat, planned: seq<Backup>, purged: nat, trashed: nat) {
    && |p'.rows| + purged == |p.rows|
    && |Listing(p'.rows, server, false)| + trashed == |Listing(p.rows, server, false)|
    && forall id :: (forall b :: b in planned ==> b.id != id) ==> KeepsId(p, p', id)
  }

  lemma NothingCleaned(p: Panel, server: nat, planned: seq<Backup>)
    ensures Cleaned(p, p, server, planned, 0, 0)
  {
  }

  lemma CleanedMore(p: Panel, q: Panel, r: Panel, server: nat, planned: seq<Backup>, more: seq<Backup>,
                    purged: nat, trashed: nat, purges: nat, moves: nat)
    requires Cleaned(p, q, server, planned, purged, trashed) && Cleaned(q, r, server, more, purges, moves)
    requires forall b :: b in more ==> b in planned
    ensures Cleaned(p, r, server, planned, purged + purges, trashed + moves)
  {
    hide Find, Listing;
    forall id | forall b :: b in planned ==> b.id != id ensures KeepsId(p, r, id) {
      assert KeepsId(p, q, id) && KeepsId(q, r, id);
    }
  }

  lemma PurgedAreDeletable(p: Panel, server: nat, b: Backup)
    requires Inv(p) && PhaseOf(p, server).Cleaning? && b in PhaseOf(p, server).purge
    ensures Deletable(b) && b in p.rows
  {
    assert PhaseOk(p.rows, server, PhaseOf(p, server));
    assert RowOk(b);
  }

  lemma PlannedAreUnique(p: Panel, server: nat)
    requires Inv(p) && PhaseOf(p, server).Cleaning?
    ensures UniqueIds(PhaseOf(p, server).purge) && UniqueIds(PhaseOf(p, server).trash)
    ensures Identified(p.rows, PhaseOf(p, server).trash)
  {
    assert PhaseOk(p.rows, server, PhaseOf(p, server));
    forall x, b | x in p.rows && b in PhaseOf(p, server).trash && x.id == b.id ensures x == b {
      SameIdSameRow(p.rows, x, b);
    }
  }

  lemma NothingDone(planned: seq<Backup>, faults: nat -> Fault)
    ensures Done(planned[..0], faults) == {} && Unarchived(planned[..0], faults) == {}
  {
  }

  lemma PurgeCleans(p: Panel, server: nat, b: Backup, fault: Fault)
    requires Inv(p) && PhaseOf(p, server).Cleaning?
    requires PhaseOf(p, server).purge != [] && PhaseOf(p, server).purge[0] == b
    ensures forall phases ::
      Cleaned(p, Panel(DeleteRow(p.rows, b, fault), DeleteArchive(p.archives, b, fault), phases), server, [b],
              if Deletable(b) && fault == NoFault then 1 else 0, 0)
  {
    hide Listing, Find, Without, UniqueIds;
    assert b in PhaseOf(p, server).purge;
    ListingOfWithout(p.rows, b, server, false);
    WithoutSize(p.rows, b);
    forall id | id != b.id && Find(p.rows, id).Some? ensures Find(Without(p.rows, b.id), id).Some? {
      WithoutUnique(p.rows, b.id);
      WithoutMember(p.rows, b.id, Find(p.rows, id).value);
      FindUnique(Without(p.rows, b.id), Find(p.rows, id).value);
    }
    assert b in [b];
  }

  lemma TrashCleans(p: Panel, server: nat, b: Backup, at: int, ok: bool)
    requires Inv(p) && PhaseOf(p, server).Cleaning?
    requires PhaseOf(p, server).trash != [] && PhaseOf(p, server).trash[0] == b
    ensures !b.guarded && b.status != Pending && b.deleted == Never && Find(p.rows, b.id) == Some(b)
    ensures forall phases ::
      Cleaned(p, Panel(TrashRow(p.rows, b, at, ok), p.archives, phases), server, [], 0, if ok then 1 else 0)
  {
    hide Listing, Find, Replace, UniqueIds;
    assert b in PhaseOf(p, server).trash;
    var row := b.(deleted := At(at));
    FindUnique(p.rows, b);
    ListingAfterTrash(p.rows, b, row);
    ReplaceEdits(p.rows, b, row);
    forall id | Find(p.rows, id).Some? ensures Find(Replace(p.rows, row), id).Some? {
      var x := Find(p.rows, id).value;
      FindUnique(Replace(p.rows, row), if x == b then row else x);
    }
  }

  lemma CleanedMeans(start: Panel, planned: Panel, end: Panel, server: nat, policy: Policy, now: int, emptyTrash: bool,
                     toPurge: seq<Backup>, purged: nat, trashed: nat)
    requires Inv(start) && ValidPolicy(policy) && planned.rows == start.rows && planned.archives == start.archives
    requires var active, bin := Listing(start.rows, server, false), Listing(start.rows, server, true);
      toPurge == if emptyTrash then bin else PlanSpec(policy, active, bin, now).toPurge
    requires Cleaned(planned, end, server, toPurge, purged, trashed)
    ensures |end.rows| + purged == |start.rows|
    ensures |Listing(end.rows, server, false)| + trashed == |Listing(start.rows, server, false)|
    ensures forall b :: b in start.rows && !MayGo(b, server, policy, now, emptyTrash) ==> KeepsId(start, end, b.id)
  {
    hide Listing, Find, Purged, Trashed, PhaseOk;
    forall b | b in start.rows && !MayGo(b, server, policy, now, emptyTrash) ensures KeepsId(start, end, b.id) {
      forall x | x in toPurge ensures x.id != b.id {
        if !emptyTrash {
          PurgedMember(policy, Listing(start.rows, server, true), now, x);
        }
        ListingMember(start.rows, server, true, x);
        if x.id == b.id {
          SameIdSameRow(start.rows, x, b);
        }
      }
      assert KeepsId(planned, end, b.id);
    }
  }

  predicate Reported(b: Backup, change: Change, fault: Fault) {
    match change
    case ToTrash => !b.guarded && b.status != Pending && (b.deleted != Never || fault == NoFault)
    case FromTrash => b.deleted != Never && fault == NoFault
    case Guard(_) => b.deleted == Never && b.status == Completed && fault == NoFault
    case Purge => b.deleted != Never && Deletable(b) && fault == NoFault
    case Delete => Deletable(b) && fault == NoFault
  }

  /** What each change is for: the row it leaves, or no row and no archive. A backup that is in trash
      already keeps its time of deletion, and one that comes out of it is protected if it is whole. */
  ghost predicate Achieved(panel: Panel, was: Backup, change: Change, at: int) {
    var row := Find(panel.rows, was.id);
    match change
    case ToTrash => row == Some(if was.deleted == Never then was.(deleted := At(at)) else was)
    case FromTrash => row == Some(was.(deleted := Never, guarded := was.status == Completed))
    case Guard(on) => row == Some(was.(guarded := on))
    case Purge => row.None? && was.id !in panel.archives
    case Delete => row.None? && was.id !in panel.archives
  }

  /** A change that is reported as done has been achieved, one that is not has changed no row, and neither
      changes another row. */
  lemma ReportedIsAchieved(p: Panel, b: Backup, change: Change, at: int, fault: Fault)
    requires Inv(p) && Find(p.rows, b.id) == Some(b)
    ensures var rows' := ChangeRow(p.rows, b, change, at, fault);
            && (forall phases :: Reported(b, change, fault) ==>
                  Achieved(Panel(rows', ChangeArchive(p.archives, b, change, fault), phases), b, change, at))
            && (!Reported(b, change, fault) ==> rows' == p.rows)
            && OthersKept(p.rows, rows', b.id)
  {
    hide Find, Replace, Without, OthersKept;
    FindReplaced(p.rows, b, b.(deleted := At(at)));
    FindReplaced(p.rows, b, b.(deleted := Never, guarded := b.status == Completed));
    if change.Guard? {
      FindReplaced(p.rows, b, b.(guarded := change.on));
    }
    FindDeleted(p.rows, b);
    SameOthers(p.rows, b.id);
  }

  lemma SameOthers(rows: seq<Backup>, id: nat)
    requires UniqueIds(rows)
    ensures OthersKept(rows, rows, id)
  {
    hide Find;
    forall b | b in rows ensures Find(rows, b.id) == Some(b) {
      FindUnique(rows, b);
    }
  }

  lemma FindReplaced(rows: seq<Backup>, prior: Backup, b: Backup)
    requires UniqueIds(rows) && prior in rows && prior.id == b.id
    ensures Find(Replace(rows, b), b.id) == Some(b) && OthersKept(rows, Replace(rows, b), b.id)
  {
    hide Find, Replace;
    var i :| 0 <= i < |rows| && rows[i] == prior;
    assert Replace(rows, b)[i] == b;
    FindUnique(Replace(rows, b), b);
    forall x | x in rows && x.id != b.id ensures Find(Replace(rows, b), x.id) == Some(x) {
      var j :| 0 <= j < |rows| && rows[j] == x;
      assert Replace(rows, b)[j] == x;
      FindUnique(Replace(rows, b), x);
    }
  }

  lemma FindDeleted(rows: seq<Backup>, b: Backup)
    requires UniqueIds(rows)
    ensures Find(Without(rows, b.id), b.id).None? && OthersKept(rows, Without(rows, b.id), b.id)
  {
    hide Find, Without;
    WithoutUnique(rows, b.id);
    forall x | x in rows && x.id != b.id ensures Find(Without(rows, b.id), x.id) == Some(x) {
      WithoutMember(rows, b.id, x);
      FindUnique(Without(rows, b.id), x);
    }
    if Find(Without(rows, b.id), b.id).Some? {
      WithoutMember(rows, b.id, Find(Without(rows, b.id), b.id).value);
    }
  }

  lemma RunStep(panel: Panel, steps: seq<Step>, step: Step)
    ensures Run(panel, steps + [step])
         == if Next(Run(panel, steps), step).Some? then Next(Run(panel, steps), step).value else Run(panel, steps)
    ensures Run(panel, []) == panel
  {
    assert (steps + [step])[..|steps|] == steps;
  }

  lemma RunParts(start: Panel, begin: Step, purges: seq<Step>, moves: seq<Step>, stop: Step)
    ensures var end := Run(Run(Run(start, [begin]), purges), moves);
            Run(start, [begin] + purges + moves + [stop])
            == if Next(end, stop).Some? then Next(end, stop).value else end
  {
    hide Run, Next;
    RunConcat(start, [begin], purges);
    RunConcat(start, [begin] + purges, moves);
    RunStep(start, [begin] + purges + moves, stop);
  }

  lemma CleanupBegins(panel: Panel, step: Step)
    requires Inv(panel) && step.BeginCleanup? && ValidPolicy(step.policy)
    requires PhaseOf(panel, step.server) == Idle || (PhaseOf(panel, step.server) == Retaining && !step.emptyTrash)
    ensures var phase := CleanupPhase(panel.rows, step.server, step.policy, step.now, step.emptyTrash);
              Next(panel, step) == Some(Entering(panel, step.server, phase))
    ensures Inv(Next(panel, step).value)
  {
    StepIsSafe(panel, step);
  }

  lemma PhaseOfPlan(rows: seq<Backup>, server: nat, policy: Policy, now: int, emptyTrash: bool)
    ensures var plan := PlanSpec(policy, Listing(rows, server, false), Listing(rows, server, true), now);
              CleanupPhase(rows, server, policy, now, emptyTrash)
              == if emptyTrash then Cleaning(policy, now, false, Listing(rows, server, true), [])
                 else Cleaning(policy, now, true, plan.toPurge, BackupsOf(plan.toTrash))
  {
  }

  lemma PurgeNextIs(panel: Panel, step: Step)
    requires step.PurgeNext? && PhaseOf(panel, step.server).Cleaning? && PhaseOf(panel, step.server).purge != []
    ensures var phase := PhaseOf(panel, step.server);
            var b := phase.purge[0];
              Next(panel, step)
              == Some(Moved(panel, step.server, DeleteRow(panel.rows, b, step.fault),
                            DeleteArchive(panel.archives, b, step.fault), phase.(purge := phase.purge[1..])))
  {
  }

  lemma TrashNextIs(panel: Panel, step: Step)
    requires step.TrashNext? && PhaseOf(panel, step.server).Cleaning?
    requires PhaseOf(panel, step.server).purge == [] && PhaseOf(panel, step.server).trash != []
    ensures var phase := PhaseOf(panel, step.server);
              Next(panel, step)
              == Some(Moved(panel, step.server, TrashRow(panel.rows, phase.trash[0], step.at, step.ok),
                            panel.archives, phase.(trash := phase.trash[1..])))
  {
  }

  lemma StopIs(panel: Panel, step: Step)
    requires step.Stop? && PhaseOf(panel, step.server) != Idle
    ensures Next(panel, step) == Some(Entering(panel, step.server, Idle))
  {
  }

  lemma SafeKeepsNewest(panel: Panel, step: Step)
    requires (step.PurgeNext? || step.TrashNext?) && Next(panel, step).Some?
    requires Safe(panel, step, Next(panel, step).value)
    ensures forall t: nat :: NewestOf(Next(panel, step).value.rows, t) == NewestOf(panel.rows, t)
  {
  }
}
