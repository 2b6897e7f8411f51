/**
  What a cleanup must do to the table (internal/backups/retention.go, cleanupLocked): which rows have to
  go and which have to move, said by their place in the table alone, and the table that is left.
 */
module BackupCleanup {
  import opened Options
  import opened Retention
  import opened BackupRecords

  // ---- which ---------------------------------------------------------------------------------------------

  /** A backup of this server in trash, and due unless the trash is being emptied. */
  predicate MayGo(b: Backup, server: nat, policy: Policy, now: int, emptyTrash: bool) {
    b.server == server && b.deleted != Never && (emptyTrash || Due(policy, now, b))
  }

  predicate IsActive(b: Backup, server: nat) {
    b.server == server && b.deleted == Never
  }

  predicate IsWhole(b: Backup, server: nat) {
    IsActive(b, server) && b.status == Completed
  }

  /** The active completed backups of the server above row k, and the unprotected ones among them. */
  function CompletedAbove(rows: seq<Backup>, server: nat, k: nat): set<nat>
    requires k <= |rows|
  {
    set j | 0 <= j < k && IsWhole(rows[j], server)
  }

  function CountedAbove(rows: seq<Backup>, server: nat, k: nat): set<nat>
    requires k <= |rows|
  {
    set j | 0 <= j < k && IsWhole(rows[j], server) && !rows[j].guarded
  }

  /** Created at least the policy's number of days ago, with that limit on. */
  predicate TooOld(policy: Policy, now: int, b: Backup) {
    policy.maxAgeDays > 0 && b.created.At? && b.created.seconds * SECOND + policy.maxAgeDays * DAY <= now
  }

  /** Row k has to move to trash: an active, completed and unprotected backup with a newer completed one
      above it, too old or behind the full number of unprotected ones. */
  predicate GoesToTrash(rows: seq<Backup>, server: nat, policy: Policy, now: int, k: nat)
    requires k < |rows|
  {
    && IsWhole(rows[k], server) && !rows[k].guarded
    && CompletedAbove(rows, server, k) != {}
    && (TooOld(policy, now, rows[k])
        || (policy.keepCount > 0 && |CountedAbove(rows, server, k)| >= policy.keepCount))
  }

  lemma OneMoreCompleted(rows: seq<Backup>, server: nat, k: nat)
    requires k < |rows|
    ensures |CompletedAbove(rows, server, k + 1)|
         == |CompletedAbove(rows, server, k)| + (if IsWhole(rows[k], server) then 1 else 0)
  {
    hide IsWhole;
    assert CompletedAbove(rows, server, k + 1)
        == CompletedAbove(rows, server, k) + (if IsWhole(rows[k], server) then {k} else {});
  }

  lemma OneMoreCounted(rows: seq<Backup>, server: nat, k: nat)
    requires k < |rows|
    ensures |CountedAbove(rows, server, k + 1)|
         == |CountedAbove(rows, server, k)| + (if IsWhole(rows[k], server) && !rows[k].guarded then 1 else 0)
  {
    hide IsWhole;
    assert CountedAbove(rows, server, k + 1)
        == CountedAbove(rows, server, k) + (if IsWhole(rows[k], server) && !rows[k].guarded then {k} else {});
  }

  lemma CountsOfMore(active: seq<Backup>, b: Backup)
    ensures CountCompleted(active + [b]) == CountCompleted(active) + (if b.status == Completed then 1 else 0)
    ensures |CountedOf(active + [b])| == |CountedOf(active)| + (if b.status == Completed && !b.guarded then 1 else 0)
  {
    assert (active + [b])[..|active|] == active;
  }

  lemma {:induction false} AboveIsCounted(rows: seq<Backup>, server: nat, k: nat)
    requires k <= |rows|
    ensures |CompletedAbove(rows, server, k)| == CountCompleted(Listing(rows[..k], server, false))
    ensures |CountedAbove(rows, server, k)| == |CountedOf(Listing(rows[..k], server, false))|
    decreases k
  {
    if k > 0 {
      hide CompletedAbove, CountedAbove, CountCompleted, CountedOf, Listing;
      AboveIsCounted(rows, server, k - 1);
      OneMoreCompleted(rows, server, k - 1);
      OneMoreCounted(rows, server, k - 1);
      assert rows[..k] == rows[..k - 1] + [rows[k - 1]];
      ListingOfMore(rows[..k - 1], rows[k - 1], server, false);
      CountsOfMore(Listing(rows[..k - 1], server, false), rows[k - 1]);
    }
  }

  /** The planner decides on a row by what is above it. */
  lemma DecisionMeans(rows: seq<Backup>, server: nat, policy: Policy, now: int, k: nat)
    requires k < |rows| && ValidPolicy(policy)
    ensures GoesToTrash(rows, server, policy, now, k) <==>
      IsActive(rows[k], server) && Decision(policy, Listing(rows[..k], server, false), rows[k], now).Some?
  {
    hide Listing, CountedOf, CountCompleted, CompletedAbove, CountedAbove;
    AboveIsCounted(rows, server, k);
    CutoffIsExact(policy.maxAgeDays, now);
  }

  /** What is planned for trash is exactly the rows that have to move. */
  lemma {:induction false} PlannedForTrash(rows: seq<Backup>, server: nat, policy: Policy, now: int, k: nat)
    requires k < |rows| && UniqueIds(rows) && ValidPolicy(policy)
    ensures rows[k] in BackupsOf(Trashed(policy, Listing(rows, server, false), now))
       <==> GoesToTrash(rows, server, policy, now, k)
    decreases |rows|
  {
    hide Listing, Trashed, BackupsOf, Decision, GoesToTrash, UniqueIds;
    var init, last := rows[..|rows| - 1], rows[|rows| - 1];
    LastIsNew(rows);
    assert rows == init + [last];
    ListingOfMore(init, last, server, false);
    var active := Listing(init, server, false);
    if IsActive(last, server) {
      assert (active + [last])[..|active|] == active;
      TrashedLast(policy, active + [last], now);
    }
    if k == |init| {
      DecisionMeans(rows, server, policy, now, k);
      if last in BackupsOf(Trashed(policy, active, now)) {
        TrashedAreListed(policy, active, now, last);
        ListingMember(init, server, false, last);
      }
    } else {
      assert rows[k] in init;
      PlannedForTrash(init, server, policy, now, k);
      SameAbove(init, rows, server, policy, now, k);
    }
  }

  lemma SameAbove(init: seq<Backup>, rows: seq<Backup>, server: nat, policy: Policy, now: int, k: nat)
    requires k < |init| <= |rows| && rows[..|init|] == init
    ensures GoesToTrash(init, server, policy, now, k) <==> GoesToTrash(rows, server, policy, now, k)
  {
    assert forall j :: 0 <= j < |init| ==> rows[j] == rows[..|init|][j] == init[j];
    assert CompletedAbove(init, server, k) == CompletedAbove(rows, server, k);
    assert CountedAbove(init, server, k) == CountedAbove(rows, server, k);
  }

  lemma {:induction false} TrashedAreListed(policy: Policy, active: seq<Backup>, now: int, b: Backup)
    requires b in BackupsOf(Trashed(policy, active, now))
    ensures b in active
  {
    hide BackupsOf, Trashed, Decision;
    if active == [] {
      PlanOfNothing(policy, now);
      assert false;
    } else {
      TrashedLast(policy, active, now);
      if b in BackupsOf(Trashed(policy, active[..|active| - 1], now)) {
        TrashedAreListed(policy, active[..|active| - 1], now, b);
      }
    }
  }

  /** What is planned to go is exactly the rows that may. */
  lemma PlannedToGo(rows: seq<Backup>, server: nat, policy: Policy, now: int, emptyTrash: bool, b: Backup)
    requires ValidPolicy(policy) && (b in rows ==> RowOk(b))
    ensures b in (if emptyTrash then Listing(rows, server, true) else Purged(policy, Listing(rows, server, true), now))
       <==> b in rows && MayGo(b, server, policy, now, emptyTrash)
  {
    hide Listing, Purged;
    ListingMember(rows, server, true, b);
    PurgedMember(policy, Listing(rows, server, true), now, b);
  }

  // ---- the table that is left -----------------------------------------------------------------------------

  /** The table without the rows that went and with the time of deletion on those that moved. */
  function Swept(rows: seq<Backup>, gone: set<nat>, moved: set<nat>, at: int): seq<Backup> {
    if rows == [] then []
    else Swept(rows[..|rows| - 1], gone, moved, at) + SweptRow(rows[|rows| - 1], gone, moved, at)
  }

  function SweptRow(b: Backup, gone: set<nat>, moved: set<nat>, at: int): seq<Backup> {
    if b.id in gone then [] else if b.id in moved then [b.(deleted := At(at))] else [b]
  }

  /** The planned backups whose statement worked, and those whose archive went. */
  function Done(planned: seq<Backup>, faults: nat -> Fault): set<nat> {
    set i | 0 <= i < |planned| && faults(i) == NoFault :: planned[i].id
  }

  function Unarchived(planned: seq<Backup>, faults: nat -> Fault): set<nat> {
    set i | 0 <= i < |planned| && faults(i) != ArchiveStays :: planned[i].id
  }

  lemma OneMoreDone(planned: seq<Backup>, i: nat, faults: nat -> Fault)
    requires i < |planned| && UniqueIds(planned)
    ensures planned[i].id !in Done(planned[..i], faults)
    ensures Done(planned[..i + 1], faults)
         == Done(planned[..i], faults) + (if faults(i) == NoFault then {planned[i].id} else {})
    ensures Unarchived(planned[..i + 1], faults)
         == Unarchived(planned[..i], faults) + (if faults(i) != ArchiveStays then {planned[i].id} else {})
  {
    assert forall j :: 0 <= j < i ==> planned[..i + 1][j] == planned[..i][j] == planned[j];
  }

  lemma {:induction false} SweptNothing(rows: seq<Backup>, at: int)
    ensures Swept(rows, {}, {}, at) == rows
  {
    if rows != [] {
      SweptNothing(rows[..|rows| - 1], at);
      assert rows == rows[..|rows| - 1] + [rows[|rows| - 1]];
    }
  }

  lemma WithoutOfMore(rows: seq<Backup>, b: Backup, id: nat)
    ensures Without(rows + [b], id) == Without(rows, id) + (if b.id == id then [] else [b])
  {
    assert (rows + [b])[..|rows|] == rows;
  }

  lemma WithoutRow(before: seq<Backup>, b: Backup, gone: set<nat>, moved: set<nat>, at: int, id: nat)
    ensures Without(before + SweptRow(b, gone, moved, at), id)
         == Without(before, id) + SweptRow(b, gone + {id}, moved, at)
  {
    hide Without;
    WithoutOfMore(before, b, id);
    WithoutOfMore(before, b.(deleted := At(at)), id);
    assert before + [] == before && Without(before, id) + [] == Without(before, id);
  }

  lemma {:induction false} SweptWithout(rows: seq<Backup>, gone: set<nat>, moved: set<nat>, at: int, id: nat)
    ensures Without(Swept(rows, gone, moved, at), id) == Swept(rows, gone + {id}, moved, at)
  {
    hide SweptRow;
    if rows != [] {
      SweptWithout(rows[..|rows| - 1], gone, moved, at, id);
      WithoutRow(Swept(rows[..|rows| - 1], gone, moved, at), rows[|rows| - 1], gone, moved, at, id);
    }
  }

  lemma ReplaceOfMore(rows: seq<Backup>, x: Backup, b: Backup)
    ensures Replace(rows + [x], b) == Replace(rows, b) + [if x.id == b.id then b else x]
  {
    assert (rows + [x])[..|rows|] == rows;
  }

  lemma ReplaceRow(before: seq<Backup>, x: Backup, gone: set<nat>, moved: set<nat>, at: int, b: Backup)
    requires x.id == b.id ==> x == b
    requires b.id !in gone && b.id !in moved
    ensures Replace(before + SweptRow(x, gone, moved, at), b.(deleted := At(at)))
         == Replace(before, b.(deleted := At(at))) + SweptRow(x, gone, moved + {b.id}, at)
  {
    hide Replace;
    var row := b.(deleted := At(at));
    ReplaceOfMore(before, x, row);
    ReplaceOfMore(before, x.(deleted := At(at)), row);
    assert before + [] == before && Replace(before, row) + [] == Replace(before, row);
  }

  lemma {:induction false} SweptReplace(rows: seq<Backup>, gone: set<nat>, moved: set<nat>, at: int, b: Backup)
    requires forall x :: x in rows && x.id == b.id ==> x == b
    requires b.id !in gone && b.id !in moved
    ensures Replace(Swept(rows, gone, moved, at), b.(deleted := At(at))) == Swept(rows, gone, moved + {b.id}, at)
  {
    hide SweptRow, Replace;
    if rows != [] {
      SweptReplace(rows[..|rows| - 1], gone, moved, at, b);
      ReplaceRow(Swept(rows[..|rows| - 1], gone, moved, at), rows[|rows| - 1], gone, moved, at, b);
    }
  }

  /** First the purges, then the moves. */
  lemma {:induction false} SweptTwice(rows: seq<Backup>, gone: set<nat>, moved: set<nat>, at: int)
    ensures Swept(Swept(rows, gone, {}, 0), {}, moved, at) == Swept(rows, gone, moved, at)
  {
    if rows != [] {
      SweptTwice(rows[..|rows| - 1], gone, moved, at);
      var before := Swept(rows[..|rows| - 1], gone, {}, 0);
      assert forall x: Backup :: (before + [x])[..|before|] == before;
      assert before + [] == before;
    }
  }

  /** What became of one row. */
  lemma {:induction false} SweptFind(rows: seq<Backup>, gone: set<nat>, moved: set<nat>, at: int, b: Backup)
    requires UniqueIds(rows) && b in rows
    ensures Find(Swept(rows, gone, moved, at), b.id)
         == if b.id in gone then None else if b.id in moved then Some(b.(deleted := At(at))) else Some(b)
  {
    hide UniqueIds;
    var init, last := rows[..|rows| - 1], rows[|rows| - 1];
    LastIsNew(rows);
    var before := Swept(init, gone, moved, at);
    assert forall x: Backup :: (before + [x])[..|before|] == before;
    assert before + [] == before;
    if last == b {
      SweptIds(init, gone, moved, at, b.id);
    } else {
      SweptFind(init, gone, moved, at, b);
    }
  }

  lemma {:induction false} SweptIds(rows: seq<Backup>, gone: set<nat>, moved: set<nat>, at: int, id: nat)
    requires forall x :: x in rows ==> x.id != id
    ensures Find(Swept(rows, gone, moved, at), id) == None
  {
    if rows != [] {
      SweptIds(rows[..|rows| - 1], gone, moved, at, id);
      var before := Swept(rows[..|rows| - 1], gone, moved, at);
      assert forall x: Backup :: (before + [x])[..|before|] == before;
      assert before + [] == before;
    }
  }

  /** Rows and planned backups with the same id are the same. */
  ghost predicate Identified(rows: seq<Backup>, planned: seq<Backup>) {
    forall x, b :: x in rows && b in planned && x.id == b.id ==> x == b
  }

  /** One turn of the purge loop, and one of the trash loop. */
  lemma OneMorePurged(rows: seq<Backup>, planned: seq<Backup>, i: nat, faults: nat -> Fault)
    requires i < |planned| && UniqueIds(planned)
    ensures var before := Swept(rows, Done(planned[..i], faults), {}, 0);
            Swept(rows, Done(planned[..i + 1], faults), {}, 0)
            == if faults(i) == NoFault then Without(before, planned[i].id) else before
    ensures |Done(planned[..i + 1], faults)|
         == |Done(planned[..i], faults)| + (if faults(i) == NoFault then 1 else 0)
    ensures Unarchived(planned[..i + 1], faults)
         == Unarchived(planned[..i], faults) + (if faults(i) != ArchiveStays then {planned[i].id} else {})
  {
    hide Swept, Done, Unarchived, Without, UniqueIds;
    OneMoreDone(planned, i, faults);
    SweptWithout(rows, Done(planned[..i], faults), {}, 0, planned[i].id);
    assert Done(planned[..i], faults) + {} == Done(planned[..i], faults);
  }

  lemma OneMoreMoved(rows: seq<Backup>, planned: seq<Backup>, i: nat, faults: nat -> Fault, at: int)
    requires i < |planned| && UniqueIds(planned) && Identified(rows, planned)
    ensures var before := Swept(rows, {}, Done(planned[..i], faults), at);
            Swept(rows, {}, Done(planned[..i + 1], faults), at)
            == if faults(i) == NoFault then Replace(before, planned[i].(deleted := At(at))) else before
    ensures |Done(planned[..i + 1], faults)|
         == |Done(planned[..i], faults)| + (if faults(i) == NoFault then 1 else 0)
  {
    hide Swept, Done, Unarchived, Replace, UniqueIds;
    OneMoreDone(planned, i, faults);
    SweptReplace(rows, {}, Done(planned[..i], faults), at, planned[i]);
    assert Done(planned[..i], faults) + {} == Done(planned[..i], faults);
  }

  // ---- nothing is left to do ---------------------------------------------------------------------------------

  lemma ListingOfRow(before: seq<Backup>, b: Backup, gone: set<nat>, moved: set<nat>, at: int, server: nat)
    ensures Listing(before + SweptRow(b, gone, moved, at), server, false)
         == Listing(before, server, false)
            + (if IsActive(b, server) && b.id !in gone && b.id !in moved then [b] else [])
  {
    hide Listing;
    ListingOfMore(before, b, server, false);
    ListingOfMore(before, b.(deleted := At(at)), server, false);
    assert before + [] == before;
  }

  lemma SurvivorsOfMore(active: seq<Backup>, b: Backup, policy: Policy, now: int)
    ensures Survivors(policy, active + [b], now)
         == Survivors(policy, active, now) + (if Decision(policy, active, b, now).None? then [b] else [])
  {
    assert (active + [b])[..|active|] == active;
  }

  lemma SurvivorRow(init: seq<Backup>, last: Backup, gone: set<nat>, moved: set<nat>, at: int, server: nat,
                    policy: Policy, now: int)
    requires IsActive(last, server) ==> last.id !in gone
    requires IsActive(last, server) ==>
               (last.id in moved <==> Decision(policy, Listing(init, server, false), last, now).Some?)
    requires Listing(Swept(init, gone, moved, at), server, false)
          == Survivors(policy, Listing(init, server, false), now)
    ensures Listing(Swept(init + [last], gone, moved, at), server, false)
         == Survivors(policy, Listing(init + [last], server, false), now)
  {
    hide Decision, Listing, Survivors, SweptRow;
    assert (init + [last])[..|init|] == init;
    ListingOfMore(init, last, server, false);
    SurvivorsOfMore(Listing(init, server, false), last, policy, now);
    ListingOfRow(Swept(init, gone, moved, at), last, gone, moved, at, server);
    var kept := Survivors(policy, Listing(init, server, false), now);
    assert kept + [] == kept;
  }

  /** When exactly the rows that have to move have moved and no active one went, the active ones left are
      the planner's survivors. */
  lemma {:induction false} SurvivorsAreLeft(rows: seq<Backup>, gone: set<nat>, moved: set<nat>, at: int, server: nat,
                                            policy: Policy, now: int, k: nat)
    requires k <= |rows| && ValidPolicy(policy)
    requires forall j :: 0 <= j < |rows| && IsActive(rows[j], server) ==>
               rows[j].id !in gone && (rows[j].id in moved <==> GoesToTrash(rows, server, policy, now, j))
    ensures Listing(Swept(rows[..k], gone, moved, at), server, false)
         == Survivors(policy, Listing(rows[..k], server, false), now)
    decreases k
  {
    if k == 0 {
      assert rows[..0] == [];
      NothingListed(server, policy, now);
    } else {
      hide Decision, GoesToTrash, Listing, Survivors, Swept;
      SurvivorsAreLeft(rows, gone, moved, at, server, policy, now, k - 1);
      DecisionMeans(rows, server, policy, now, k - 1);
      assert rows[..k] == rows[..k - 1] + [rows[k - 1]];
      SurvivorRow(rows[..k - 1], rows[k - 1], gone, moved, at, server, policy, now);
    }
  }

  lemma NothingListed(server: nat, policy: Policy, now: int)
    ensures Listing([], server, false) == [] && Survivors(policy, [], now) == []
  {
  }

  /** And when all that may go has gone, what is left in trash is not due: neither what stayed there nor
      what has just been moved there, if the clock has not gone back a day meanwhile. */
  lemma {:induction false} NoneDueIsLeft(rows: seq<Backup>, gone: set<nat>, moved: set<nat>, at: int, server: nat,
                                         policy: Policy, now: int, b: Backup)
    requires at * SECOND + DAY > now
    requires forall x :: x in rows && MayGo(x, server, policy, now, false) ==> x.id in gone
    requires b in Swept(rows, gone, moved, at)
    ensures !MayGo(b, server, policy, now, false)
  {
    var init, last := rows[..|rows| - 1], rows[|rows| - 1];
    if b in Swept(init, gone, moved, at) {
      NoneDueIsLeft(init, gone, moved, at, server, policy, now, b);
    } else {
      assert last in rows;
    }
  }

  /** A cleanup in which nothing fails leaves nothing for another one at the same time. */
  lemma NothingLeftToDo(rows: seq<Backup>, gone: set<nat>, moved: set<nat>, at: int, server: nat, policy: Policy,
                        now: int)
    requires ValidPolicy(policy) && at * SECOND + DAY > now
    requires forall b :: b in Swept(rows, gone, moved, at) ==> RowOk(b)
    requires forall x :: x in rows && MayGo(x, server, policy, now, false) ==> x.id in gone
    requires forall j :: 0 <= j < |rows| && IsActive(rows[j], server) ==>
               rows[j].id !in gone && (rows[j].id in moved <==> GoesToTrash(rows, server, policy, now, j))
    ensures var left := Swept(rows, gone, moved, at);
            CleanupPhase(left, server, policy, now, false) == Cleaning(policy, now, true, [], [])
  {
    hide Listing, Trashed, Purged, Survivors, BackupsOf, MayGo, GoesToTrash, Swept, IsActive;
    var left := Swept(rows, gone, moved, at);
    assert rows[..|rows|] == rows;
    SurvivorsAreLeft(rows, gone, moved, at, server, policy, now, |rows|);
    PlanIsIdempotent(policy, Listing(rows, server, false), now);
    PlanOfNothing(policy, now);
    var toPurge := Purged(policy, Listing(left, server, true), now);
    if toPurge != [] {
      var b := toPurge[0];
      PlannedToGo(left, server, policy, now, false, b);
      NoneDueIsLeft(rows, gone, moved, at, server, policy, now, b);
      assert false;
    }
  }

  // ---- a whole cleanup ---------------------------------------------------------------------------------------

  /** What a cleanup of `server` made of the table: the rows that may go are taken one by one, then the
      rows that have to move, and each is dealt with unless its own statement fails. */
  ghost predicate CleanedUp(p: Panel, p': Panel, server: nat, policy: Policy, now: int, emptyTrash: bool, at: int,
                            binned: seq<Backup>, older: seq<Backup>, faults: nat -> Fault, misses: nat -> Fault) {
    && UniqueIds(binned) && UniqueIds(older)
    && (forall b :: b in binned <==> b in p.rows && MayGo(b, server, policy, now, emptyTrash))
    && (forall b :: b in older ==> b in p.rows)
    && (forall k :: 0 <= k < |p.rows| ==>
          (p.rows[k] in older <==> !emptyTrash && GoesToTrash(p.rows, server, policy, now, k)))
    && p'.rows == Swept(p.rows, Done(binned, faults), Done(older, misses), at)
    && p'.archives == p.archives - Unarchived(binned, faults)
  }

  lemma PlanIsCarriedOut(p: Panel, p': Panel, server: nat, policy: Policy, now: int, emptyTrash: bool, at: int,
                         binned: seq<Backup>, older: seq<Backup>, faults: nat -> Fault, misses: nat -> Fault)
    requires Inv(p) && ValidPolicy(policy) && UniqueIds(binned) && UniqueIds(older)
    requires var bin := Listing(p.rows, server, true);
             binned == if emptyTrash then bin else Purged(policy, bin, now)
    requires older == if emptyTrash then [] else BackupsOf(Trashed(policy, Listing(p.rows, server, false), now))
    requires p'.rows == Swept(p.rows, Done(binned, faults), Done(older, misses), at)
    requires p'.archives == p.archives - Unarchived(binned, faults)
    ensures CleanedUp(p, p', server, policy, now, emptyTrash, at, binned, older, faults, misses)
  {
    hide Listing, Purged, Trashed, BackupsOf, MayGo, GoesToTrash, Swept, Done, Unarchived, PhaseOk, UniqueIds;
    forall b
      ensures b in binned <==> b in p.rows && MayGo(b, server, policy, now, emptyTrash)
    {
      PlannedToGo(p.rows, server, policy, now, emptyTrash, b);
    }
    forall b | b in older
      ensures b in p.rows
    {
      TrashedAreListed(policy, Listing(p.rows, server, false), now, b);
      ListingMember(p.rows, server, false, b);
    }
    forall k | 0 <= k < |p.rows|
      ensures p.rows[k] in older <==> !emptyTrash && GoesToTrash(p.rows, server, policy, now, k)
    {
      PlannedForTrash(p.rows, server, policy, now, k);
    }
  }

  /** A planned backup stays in the table only if its own purge failed, keeps its archive only if that could
      not be removed, and stays active only if its own move failed. */
  lemma StaysOnlyByItsOwnFault(p: Panel, p': Panel, server: nat, policy: Policy, now: int, emptyTrash: bool, at: int,
                               binned: seq<Backup>, older: seq<Backup>, faults: nat -> Fault, misses: nat -> Fault)
    requires Inv(p) && CleanedUp(p, p', server, policy, now, emptyTrash, at, binned, older, faults, misses)
    ensures forall i :: 0 <= i < |binned| ==>
              && Find(p'.rows, binned[i].id) == (if faults(i) == NoFault then None else Some(binned[i]))
              && (binned[i].id in p'.archives <==> binned[i].id in p.archives && faults(i) == ArchiveStays)
    ensures forall i :: 0 <= i < |older| ==>
              Find(p'.rows, older[i].id)
              == Some(if misses(i) == NoFault then older[i].(deleted := At(at)) else older[i])
    ensures forall b :: b in p.rows && b !in binned && b !in older ==>
              Find(p'.rows, b.id) == Some(b) && (b.id in p'.archives <==> b.id in p.archives)
  {
    hide MayGo, GoesToTrash, Swept, Find, PhaseOk, Done, Unarchived, RowOk;
    var gone, moved := Done(binned, faults), Done(older, misses);
    OlderAreActive(p, server, policy, now, emptyTrash, older);
    forall b | b in p.rows
      ensures Find(p'.rows, b.id)
           == if b.id in gone then None else if b.id in moved then Some(b.(deleted := At(at))) else Some(b)
    {
      SweptFind(p.rows, gone, moved, at, b);
    }
    forall i | 0 <= i < |binned|
      ensures binned[i].id in gone <==> faults(i) == NoFault
      ensures binned[i].id in Unarchived(binned, faults) <==> faults(i) != ArchiveStays
      ensures binned[i].id !in moved
    {
      DoneAt(binned, faults, i);
      assert binned[i] in binned;
      NotDone(p.rows, older, misses, binned[i]);
    }
    forall i | 0 <= i < |older|
      ensures older[i].id in moved <==> misses(i) == NoFault
      ensures older[i].id !in gone
    {
      DoneAt(older, misses, i);
      assert older[i] in older;
      NotDone(p.rows, binned, faults, older[i]);
    }
    forall b | b in p.rows && b !in binned && b !in older
      ensures b.id !in gone && b.id !in moved && b.id !in Unarchived(binned, faults)
    {
      NotDone(p.rows, binned, faults, b);
      NotDone(p.rows, older, misses, b);
    }
  }

  /** What may go is in trash and what has to move is not. */
  lemma OlderAreActive(p: Panel, server: nat, policy: Policy, now: int, emptyTrash: bool, older: seq<Backup>)
    requires forall b :: b in older ==> b in p.rows
    requires forall k :: 0 <= k < |p.rows| ==>
               (p.rows[k] in older <==> !emptyTrash && GoesToTrash(p.rows, server, policy, now, k))
    ensures forall b :: b in older ==> b.deleted == Never
    ensures forall b :: MayGo(b, server, policy, now, emptyTrash) ==> b.deleted != Never
  {
    forall b | b in older ensures b.deleted == Never {
      var k :| 0 <= k < |p.rows| && p.rows[k] == b;
      assert GoesToTrash(p.rows, server, policy, now, k);
    }
  }

  lemma DoneAt(planned: seq<Backup>, faults: nat -> Fault, i: nat)
    requires i < |planned| && UniqueIds(planned)
    ensures planned[i].id in Done(planned, faults) <==> faults(i) == NoFault
    ensures planned[i].id in Unarchived(planned, faults) <==> faults(i) != ArchiveStays
  {
  }

  lemma NotDone(rows: seq<Backup>, planned: seq<Backup>, faults: nat -> Fault, b: Backup)
    requires UniqueIds(rows) && b in rows && b !in planned && forall x :: x in planned ==> x in rows
    ensures b.id !in Done(planned, faults) && b.id !in Unarchived(planned, faults)
  {
    forall i | 0 <= i < |planned| ensures planned[i].id != b.id {
      if planned[i].id == b.id {
        SameIdSameRow(rows, planned[i], b);
      }
    }
  }

  /** The ids of the rows that may go, and of the rows that have to move. */
  function MayGoIds(rows: seq<Backup>, server: nat, policy: Policy, now: int, emptyTrash: bool): set<nat> {
    set k | 0 <= k < |rows| && MayGo(rows[k], server, policy, now, emptyTrash) :: rows[k].id
  }

  function TrashIds(rows: seq<Backup>, server: nat, policy: Policy, now: int, emptyTrash: bool): set<nat> {
    set k | 0 <= k < |rows| && !emptyTrash && GoesToTrash(rows, server, policy, now, k) :: rows[k].id
  }

  /** If no statement fails, the rows that may go have neither row nor archive, the rows that have to move
      are in trash, every other row is as it was, and an automatic cleanup at the same time would find
      nothing to do. */
  lemma FaultFreeCleanup(p: Panel, p': Panel, server: nat, policy: Policy, now: int, emptyTrash: bool, at: int,
                         binned: seq<Backup>, older: seq<Backup>, faults: nat -> Fault, misses: nat -> Fault)
    requires Inv(p) && Inv(p') && ValidPolicy(policy)
    requires CleanedUp(p, p', server, policy, now, emptyTrash, at, binned, older, faults, misses)
    requires forall i: nat :: faults(i) == NoFault && misses(i) == NoFault
    ensures var gone := MayGoIds(p.rows, server, policy, now, emptyTrash);
            var moved := TrashIds(p.rows, server, policy, now, emptyTrash);
            && Done(binned, faults) == gone && Done(older, misses) == moved
            && p'.archives == p.archives - gone
            && forall b :: b in p.rows ==>
                 Find(p'.rows, b.id)
                 == if b.id in gone then None else if b.id in moved then Some(b.(deleted := At(at))) else Some(b)
    ensures !emptyTrash && at * SECOND + DAY > now ==>
              CleanupPhase(p'.rows, server, policy, now, false) == Cleaning(policy, now, true, [], [])
  {
    hide MayGo, GoesToTrash, Swept, Find, PhaseOk, Done, Unarchived, RowOk, CleanupPhase, MayGoIds, TrashIds;
    var gone, moved := Done(binned, faults), Done(older, misses);
    AllDone(p, server, policy, now, emptyTrash, binned, older, faults, misses);
    forall b | b in p.rows
      ensures Find(p'.rows, b.id)
           == if b.id in gone then None else if b.id in moved then Some(b.(deleted := At(at))) else Some(b)
    {
      SweptFind(p.rows, gone, moved, at, b);
    }
    if !emptyTrash && at * SECOND + DAY > now {
      MovedAndGone(p, server, policy, now);
      NothingLeftToDo(p.rows, gone, moved, at, server, policy, now);
    }
  }

  lemma AllDone(p: Panel, server: nat, policy: Policy, now: int, emptyTrash: bool,
                binned: seq<Backup>, older: seq<Backup>, faults: nat -> Fault, misses: nat -> Fault)
    requires forall i: nat :: faults(i) == NoFault && misses(i) == NoFault
    requires forall b :: b in binned <==> b in p.rows && MayGo(b, server, policy, now, emptyTrash)
    requires forall b :: b in older ==> b in p.rows
    requires forall k :: 0 <= k < |p.rows| ==>
               (p.rows[k] in older <==> !emptyTrash && GoesToTrash(p.rows, server, policy, now, k))
    ensures Done(binned, faults) == Unarchived(binned, faults) == MayGoIds(p.rows, server, policy, now, emptyTrash)
    ensures Done(older, misses) == TrashIds(p.rows, server, policy, now, emptyTrash)
  {
    hide MayGo, GoesToTrash;
    var gone, moved := MayGoIds(p.rows, server, policy, now, emptyTrash),
                       TrashIds(p.rows, server, policy, now, emptyTrash);
    forall id ensures id in Done(binned, faults) <==> id in gone {
      if id in Done(binned, faults) {
        var i :| 0 <= i < |binned| && binned[i].id == id;
        assert binned[i] in binned;
      }
      if id in gone {
        var k :| 0 <= k < |p.rows| && MayGo(p.rows[k], server, policy, now, emptyTrash) && p.rows[k].id == id;
        assert p.rows[k] in binned;
      }
    }
    forall id ensures id in Done(older, misses) <==> id in moved {
      if id in Done(older, misses) {
        var i :| 0 <= i < |older| && older[i].id == id;
        assert older[i] in older;
      }
      if id in moved {
        var k :| 0 <= k < |p.rows| && !emptyTrash && GoesToTrash(p.rows, server, policy, now, k) && p.rows[k].id == id;
        assert p.rows[k] in older;
      }
    }
  }

  lemma MovedAndGone(p: Panel, server: nat, policy: Policy, now: int)
    requires UniqueIds(p.rows)
    ensures var gone := MayGoIds(p.rows, server, policy, now, false);
            var moved := TrashIds(p.rows, server, policy, now, false);
            && (forall x :: x in p.rows && MayGo(x, server, policy, now, false) ==> x.id in gone)
            && (forall j :: 0 <= j < |p.rows| && IsActive(p.rows[j], server) ==>
                  p.rows[j].id !in gone && (p.rows[j].id in moved <==> GoesToTrash(p.rows, server, policy, now, j)))
  {
    hide GoesToTrash, Due;
  }
}
