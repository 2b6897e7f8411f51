/**
  The retention planner (internal/backups/retention.go, planRetention): which active backups of one
  server go to trash, and which trashed ones are purged. Times are seconds since the epoch as the
  records store them, and nanoseconds where the source does arithmetic on them.
 */
module Retention {
  import opened Options

  datatype Status = Pending | Completed | Failed

  /** A stored time: the empty text, text that does not parse, or a time. */
  datatype Stamp = Never | Unreadable | At(seconds: int)

  datatype Backup = Backup(
    id: nat,
    server: nat,
    size: int,
    status: Status,
    created: Stamp,
    guarded: bool,      // the "protected" column
    deleted: Stamp)

  datatype Policy = Policy(keepCount: int, maxAgeDays: int, trashRetentionDays: int)

  datatype Reason = Count | Age

  datatype Candidate = Candidate(backup: Backup, reason: Reason)

  datatype Preview = Preview(
    policy: Policy,
    toTrash: seq<Candidate>,
    toPurge: seq<Backup>,
    trashBytes: int,
    purgeBytes: int)

  /** Policy.Validate accepts. */
  predicate ValidPolicy(p: Policy) {
    0 <= p.keepCount <= 100000 && 0 <= p.maxAgeDays <= 36500 && 0 <= p.trashRetentionDays <= 36500
  }

  const SECOND: int := 1_000_000_000
  const DAY: int := 24 * 3600 * SECOND

  /** Signed 64-bit arithmetic, which is what a Duration is. */
  function Wrap64(v: int): int {
    (v + 0x8000_0000_0000_0000) % 0x1_0000_0000_0000_0000 - 0x8000_0000_0000_0000
  }

  function Cutoff(days: int, now: int): int {
    now + Wrap64(-days * DAY)
  }

  /** Within the bound that Validate sets, the day arithmetic does not wrap. */
  lemma CutoffIsExact(days: int, now: int)
    requires 0 <= days <= 36500
    ensures Cutoff(days, now) == now - days * DAY
  {
  }

  /** Every valid policy is within that bound, and no other limit is put on one. */
  lemma ValidIsWithinBound(p: Policy)
    ensures ValidPolicy(p) <==>
      0 <= p.keepCount <= 100000 && 0 <= p.maxAgeDays <= 36500 && 0 <= p.trashRetentionDays <= 36500
    ensures ValidPolicy(p) ==> forall now ::
      Cutoff(p.maxAgeDays, now) == now - p.maxAgeDays * DAY
      && Cutoff(p.trashRetentionDays, now) == now - p.trashRetentionDays * DAY
  {
    if ValidPolicy(p) {
      forall now
        ensures Cutoff(p.maxAgeDays, now) == now - p.maxAgeDays * DAY
        ensures Cutoff(p.trashRetentionDays, now) == now - p.trashRetentionDays * DAY
      {
        CutoffIsExact(p.maxAgeDays, now);
        CutoffIsExact(p.trashRetentionDays, now);
      }
    }
  }

  /** Beyond it, it would: 106752 days would be a limit in the future. */
  lemma CutoffCouldWrap(now: int)
    ensures Cutoff(106752, now) > now
  {
  }

  /** A stored time at or before the cutoff; one that does not parse never is. */
  predicate Expired(s: Stamp, days: int, now: int) {
    days > 0 && s.At? && s.seconds * SECOND <= Cutoff(days, now)
  }

  /** Within the bound, that is: the stored time and so many days of 24 hours are over. */
  lemma ExpiredIsExact(s: Stamp, days: int, now: int)
    requires 0 <= days <= 36500
    ensures Expired(s, days, now) <==>
      days > 0 && s.At? && s.seconds * 1_000_000_000 + days * 86_400_000_000_000 <= now
  {
    CutoffIsExact(days, now);
  }

  function CountCompleted(active: seq<Backup>): nat {
    if active == [] then 0
    else CountCompleted(active[..|active| - 1]) + (if active[|active| - 1].status == Completed then 1 else 0)
  }

  /** Completed and not protected: the backups the policy counts. */
  predicate Counted(b: Backup) {
    b.status == Completed && !b.guarded
  }

  function CountedOf(active: seq<Backup>): seq<Backup> {
    if active == [] then []
    else
      var last := active[|active| - 1];
      CountedOf(active[..|active| - 1]) + (if Counted(last) then [last] else [])
  }

  /** Why a backup goes to trash, given the newer ones before it. */
  function Decision(p: Policy, newer: seq<Backup>, b: Backup, now: int): Option<Reason> {
    if !Counted(b) || CountCompleted(newer) == 0 then None
    else if Expired(b.created, p.maxAgeDays, now) then Some(Age)
    else if p.keepCount > 0 && |CountedOf(newer)| + 1 > p.keepCount then Some(Count)
    else None
  }

  function Trashed(p: Policy, active: seq<Backup>, now: int): seq<Candidate> {
    if active == [] then []
    else
      var newer, b := active[..|active| - 1], active[|active| - 1];
      var why := Decision(p, newer, b, now);
      Trashed(p, newer, now) + (if why.Some? then [Candidate(b, why.value)] else [])
  }

  function Survivors(p: Policy, active: seq<Backup>, now: int): seq<Backup> {
    if active == [] then []
    else
      var newer, b := active[..|active| - 1], active[|active| - 1];
      Survivors(p, newer, now) + (if Decision(p, newer, b, now).None? then [b] else [])
  }

  predicate Purgeable(p: Policy, b: Backup, now: int) {
    !b.guarded && Expired(b.deleted, p.trashRetentionDays, now)
  }

  function Purged(p: Policy, trash: seq<Backup>, now: int): seq<Backup> {
    if trash == [] then []
    else
      var b := trash[|trash| - 1];
      Purged(p, trash[..|trash| - 1], now) + (if Purgeable(p, b, now) then [b] else [])
  }

  function Bytes(bs: seq<Backup>): int {
    if bs == [] then 0 else Bytes(bs[..|bs| - 1]) + bs[|bs| - 1].size
  }

  function BackupsOf(cs: seq<Candidate>): seq<Backup> {
    if cs == [] then [] else BackupsOf(cs[..|cs| - 1]) + [cs[|cs| - 1].backup]
  }

  function PlanSpec(p: Policy, active: seq<Backup>, trash: seq<Backup>, now: int): Preview {
    var toTrash, toPurge := Trashed(p, active, now), Purged(p, trash, now);
    Preview(p, toTrash, toPurge, Bytes(BackupsOf(toTrash)), Bytes(toPurge))
  }

  // ---- the loops of the source ----------------------------------------------------------------------

  lemma OneMoreActive(p: Policy, active: seq<Backup>, i: nat, now: int)
    requires i < |active|
    ensures active[..i + 1] == active[..i] + [active[i]]
    ensures CountCompleted(active[..i + 1])
         == CountCompleted(active[..i]) + (if active[i].status == Completed then 1 else 0)
    ensures CountedOf(active[..i + 1]) == CountedOf(active[..i]) + (if Counted(active[i]) then [active[i]] else [])
    ensures var why := Decision(p, active[..i], active[i], now);
              Trashed(p, active[..i + 1], now)
              == Trashed(p, active[..i], now) + (if why.Some? then [Candidate(active[i], why.value)] else [])
  {
    assert active[..i + 1][..i] == active[..i];
  }

  lemma OneMoreTrash(p: Policy, trash: seq<Backup>, i: nat, now: int)
    requires i < |trash|
    ensures Purged(p, trash[..i + 1], now)
         == Purged(p, trash[..i], now) + (if Purgeable(p, trash[i], now) then [trash[i]] else [])
  {
    assert trash[..i + 1][..i] == trash[..i];
  }

  lemma OneMoreBackup(bs: seq<Backup>, b: Backup)
    ensures Bytes(bs + [b]) == Bytes(bs) + b.size
  {
    assert (bs + [b])[..|bs|] == bs;
  }

  lemma OneMoreCandidate(cs: seq<Candidate>, c: Candidate)
    ensures BackupsOf(cs + [c]) == BackupsOf(cs) + [c.backup]
  {
    assert (cs + [c])[..|cs|] == cs;
  }

  method PlanRetention(p: Policy, active: seq<Backup>, trash: seq<Backup>, now: int) returns (plan: Preview)
    ensures plan == PlanSpec(p, active, trash, now)
  {
    hide Trashed, Purged, CountCompleted, CountedOf, Bytes, BackupsOf, Expired, Purgeable;
    plan := Preview(p, [], [], 0, 0);
    var completed, unprotected := 0, 0;
    PlanOfNothing(p, now);
    assert active[..0] == [] && trash[..0] == [];
    for i := 0 to |active|
      invariant completed == CountCompleted(active[..i]) && unprotected == |CountedOf(active[..i])|
      invariant plan == Preview(p, Trashed(p, active[..i], now), [], Bytes(BackupsOf(plan.toTrash)), 0)
    {
      var b := active[i];
      OneMoreActive(p, active, i, now);
      assert plan.toTrash + [] == plan.toTrash;
      if b.status != Completed {
        continue;
      }
      completed := completed + 1;
      if b.guarded {
        continue;
      }
      unprotected := unprotected + 1;
      if completed == 1 {
        continue;
      }
      var reason := None;
      if p.keepCount > 0 && unprotected > p.keepCount {
        reason := Some(Count);
      }
      if Expired(b.created, p.maxAgeDays, now) {
        reason := Some(Age);
      }
      if reason.Some? {
        var c := Candidate(b, reason.value);
        OneMoreCandidate(plan.toTrash, c);
        OneMoreBackup(BackupsOf(plan.toTrash), b);
        plan := plan.(toTrash := plan.toTrash + [c], trashBytes := plan.trashBytes + b.size);
      }
    }
    assert active[..|active|] == active;
    for i := 0 to |trash|
      invariant plan == Preview(p, Trashed(p, active, now), Purged(p, trash[..i], now),
                                Bytes(BackupsOf(plan.toTrash)), Bytes(plan.toPurge))
    {
      var b := trash[i];
      OneMoreTrash(p, trash, i, now);
      assert plan.toPurge + [] == plan.toPurge;
      if Purgeable(p, b, now) {
        OneMoreBackup(plan.toPurge, b);
        plan := plan.(toPurge := plan.toPurge + [b], purgeBytes := plan.purgeBytes + b.size);
      }
    }
    assert trash[..|trash|] == trash;
  }

  lemma PlanOfNothing(p: Policy, now: int)
    ensures CountCompleted([]) == 0 && CountedOf([]) == [] && Trashed(p, [], now) == [] && Purged(p, [], now) == []
    ensures Bytes([]) == 0 && BackupsOf([]) == []
  {
  }

  // ---- what a plan is worth ---------------------------------------------------------------------------

  /** Nothing is lost or invented: the active list splits into what stays and what goes. */
  lemma {:induction false} PlanSplits(p: Policy, active: seq<Backup>, now: int)
    ensures multiset(active) == multiset(Survivors(p, active, now)) + multiset(BackupsOf(Trashed(p, active, now)))
  {
    hide Decision, BackupsOf, Trashed;
    if active != [] {
      var newer, b := active[..|active| - 1], active[|active| - 1];
      PlanSplits(p, newer, now);
      assert active == newer + [b];
      TrashedLast(p, active, now);
    } else {
      PlanOfNothing(p, now);
    }
  }

  lemma TrashedLast(p: Policy, active: seq<Backup>, now: int)
    requires active != []
    ensures var newer, b := active[..|active| - 1], active[|active| - 1];
            BackupsOf(Trashed(p, active, now))
            == BackupsOf(Trashed(p, newer, now)) + (if Decision(p, newer, b, now).Some? then [b] else [])
  {
    var newer, b := active[..|active| - 1], active[|active| - 1];
    var why := Decision(p, newer, b, now);
    if why.Some? {
      var before := Trashed(p, newer, now);
      assert (before + [Candidate(b, why.value)])[..|before|] == before;
    } else {
      assert Trashed(p, active, now) == Trashed(p, newer, now);
    }
  }

  lemma SurvivorsLast(p: Policy, active: seq<Backup>, now: int)
    requires active != []
    ensures var newer, b := active[..|active| - 1], active[|active| - 1];
            var kept := Survivors(p, newer, now);
            CountedOf(Survivors(p, active, now))
            == CountedOf(kept) + (if Counted(b) && Decision(p, newer, b, now).None? then [b] else [])
  {
    var newer, b := active[..|active| - 1], active[|active| - 1];
    var kept := Survivors(p, newer, now);
    assert (kept + [b])[..|kept|] == kept;
    assert kept + [] == kept;
  }

  /** Counted survivors never outnumber the counted backups they come from, nor a limit that is on. */
  lemma {:induction false} KeepCountHolds(p: Policy, active: seq<Backup>, now: int)
    ensures |CountedOf(Survivors(p, active, now))| <= |CountedOf(active)|
    ensures p.keepCount > 0 ==> |CountedOf(Survivors(p, active, now))| <= p.keepCount
  {
    if active != [] {
      var newer, b := active[..|active| - 1], active[|active| - 1];
      KeepCountHolds(p, newer, now);
      SurvivorsLast(p, active, now);
      CountedAreCompleted(newer);
    }
  }

  lemma {:induction false} CountedAreCompleted(active: seq<Backup>)
    ensures |CountedOf(active)| <= CountCompleted(active)
  {
    if active != [] {
      CountedAreCompleted(active[..|active| - 1]);
    }
  }

  /** The first completed backup of a newest-first list: the newest snapshot to recover from. */
  function Newest(active: seq<Backup>): Option<Backup> {
    if active == [] then None
    else
      var before := Newest(active[..|active| - 1]);
      if before.Some? then before
      else if active[|active| - 1].status == Completed then Some(active[|active| - 1])
      else None
  }

  lemma {:induction false} NewestIffCompleted(active: seq<Backup>)
    ensures Newest(active).Some? <==> CountCompleted(active) > 0
  {
    if active != [] {
      NewestIffCompleted(active[..|active| - 1]);
    }
  }

  /** The newest successful backup always survives, as the newest. */
  lemma {:induction false} NewestSurvives(p: Policy, active: seq<Backup>, now: int)
    ensures Newest(Survivors(p, active, now)) == Newest(active)
  {
    if active != [] {
      var newer, b := active[..|active| - 1], active[|active| - 1];
      NewestSurvives(p, newer, now);
      NewestIffCompleted(newer);
      var kept := Survivors(p, newer, now);
      assert (kept + [b])[..|kept|] == kept;
      assert kept + [] == kept;
    }
  }

  /** A counted backup that stays, other than the newest snapshot, has not reached the age limit. */
  lemma {:induction false} SurvivorsAreFresh(p: Policy, active: seq<Backup>, now: int, b: Backup)
    requires b in Survivors(p, active, now) && Counted(b) && Newest(active) != Some(b)
    ensures !Expired(b.created, p.maxAgeDays, now)
  {
    var newer, last := active[..|active| - 1], active[|active| - 1];
    NewestIffCompleted(newer);
    if b in Survivors(p, newer, now) {
      SurvivorsAreFresh(p, newer, now, b);
    }
  }

  /** Planning again at the same time, once the plan is carried out, finds nothing more to trash. */
  lemma {:induction false} PlanIsIdempotent(p: Policy, active: seq<Backup>, now: int)
    ensures Trashed(p, Survivors(p, active, now), now) == []
  {
    if active != [] {
      var newer, b := active[..|active| - 1], active[|active| - 1];
      var kept := Survivors(p, newer, now);
      PlanIsIdempotent(p, newer, now);
      assert (kept + [b])[..|kept|] == kept;
      assert kept + [] == kept;
      if Decision(p, newer, b, now).None? {
        KeepCountHolds(p, newer, now);
        NewestSurvives(p, newer, now);
        NewestIffCompleted(newer);
        NewestIffCompleted(kept);
        assert Decision(p, kept, b, now).None?;
      }
    }
  }

  /** At a later time at least the same backups go. */
  lemma {:induction false} LaterTrashesMore(p: Policy, active: seq<Backup>, now: int, later: int)
    requires now <= later
    ensures multiset(BackupsOf(Trashed(p, active, now))) <= multiset(BackupsOf(Trashed(p, active, later)))
  {
    if active != [] {
      LaterTrashesMore(p, active[..|active| - 1], now, later);
      TrashedLast(p, active, now);
      TrashedLast(p, active, later);
    }
  }

  /** Newest first, as the query orders rows, with creation times that parse. */
  ghost predicate NewestFirst(active: seq<Backup>) {
    && (forall i :: 0 <= i < |active| ==> active[i].created.At?)
    && (forall i, j :: 0 <= i < j < |active| ==> active[i].created.seconds >= active[j].created.seconds)
  }

  /** A backup went for a reason that its elders share. */
  lemma {:induction false} OlderGoToo(p: Policy, active: seq<Backup>, b: Backup, now: int)
    requires NewestFirst(active + [b]) && Counted(b) && Trashed(p, active, now) != []
    ensures Decision(p, active, b, now).Some?
  {
    var newer, last := active[..|active| - 1], active[|active| - 1];
    assert (active + [b])[|active|] == b && (active + [b])[|active| - 1] == last;
    if Decision(p, newer, last, now).None? {
      assert Trashed(p, newer, now) != [];
      assert forall i :: 0 <= i < |newer| ==> (newer + [b])[i] == (active + [b])[i];
      OlderGoToo(p, newer, b, now);
    }
  }

  /** On a newest-first list, what goes is a suffix of the completed, unprotected backups. */
  lemma {:induction false} TrashedIsSuffix(p: Policy, active: seq<Backup>, now: int)
    requires NewestFirst(active)
    ensures CountedOf(active) == CountedOf(Survivors(p, active, now)) + BackupsOf(Trashed(p, active, now))
  {
    hide BackupsOf, Trashed, CountCompleted, Survivors, Expired;
    if active == [] {
      PlanOfNothing(p, now);
      NoSurvivors(p, now);
    } else {
      var newer, b := active[..|active| - 1], active[|active| - 1];
      TrashedIsSuffix(p, newer, now);
      TrashedLast(p, active, now);
      SurvivorsLast(p, active, now);
      assert newer + [b] == active;
      var kept, gone := CountedOf(Survivors(p, newer, now)), BackupsOf(Trashed(p, newer, now));
      if Counted(b) {
        if Trashed(p, newer, now) != [] {
          OlderGoToo(p, newer, b, now);
        } else {
          PlanOfNothing(p, now);
        }
        assert (kept + gone) + [b] == kept + (gone + [b]);
        if Decision(p, newer, b, now).None? {
          assert gone == [];
        }
      }
      assert kept + [] == kept && gone + [] == gone && CountedOf(newer) + [] == CountedOf(newer);
    }
  }

  lemma NoSurvivors(p: Policy, now: int)
    ensures Survivors(p, [], now) == []
  {
  }

  /** Everything planned for trash is active, counted, and older than the newest snapshot. */
  lemma {:induction false} TrashedMember(p: Policy, active: seq<Backup>, now: int, c: Candidate) returns (i: nat)
    requires c in Trashed(p, active, now)
    ensures i < |active| && active[i] == c.backup && Counted(c.backup)
    ensures Newest(active[..i]).Some? && Newest(active[..i]) == Newest(active)
    ensures c.reason == Age <==> Expired(c.backup.created, p.maxAgeDays, now)
    ensures c.reason == Count ==> p.keepCount > 0 && |CountedOf(active[..i])| >= p.keepCount
  {
    var newer, b := active[..|active| - 1], active[|active| - 1];
    if c in Trashed(p, newer, now) {
      i := TrashedMember(p, newer, now, c);
      assert active[..i] == newer[..i];
    } else {
      i := |newer|;
      assert active[..i] == newer;
      NewestIffCompleted(newer);
    }
  }

  /** Everything planned for purging is in the trash list, unprotected, and has been there for the
      policy's number of days; a limit of zero purges nothing. */
  lemma {:induction false} PurgedMember(p: Policy, trash: seq<Backup>, now: int, b: Backup)
    requires ValidPolicy(p)
    ensures b in Purged(p, trash, now) <==>
      b in trash && !b.guarded && p.trashRetentionDays > 0 && b.deleted.At?
      && b.deleted.seconds * SECOND + p.trashRetentionDays * DAY <= now
  {
    CutoffIsExact(p.trashRetentionDays, now);
    if trash != [] {
      PurgedMember(p, trash[..|trash| - 1], now, b);
      assert trash == trash[..|trash| - 1] + [trash[|trash| - 1]];
    }
  }

  /** The sizes of some backups, added up from the front. */
  function SizeOf(bs: seq<Backup>): int {
    if bs == [] then 0 else bs[0].size + SizeOf(bs[1..])
  }

  lemma {:induction false} BytesIsSize(bs: seq<Backup>)
    ensures Bytes(bs) == SizeOf(bs)
  {
    if |bs| > 1 {
      BytesIsSize(bs[..|bs| - 1]);
      BytesIsSize(bs[1..]);
      BytesIsSize(bs[1..|bs| - 1]);
      assert bs[1..][..|bs| - 2] == bs[1..|bs| - 1] == bs[..|bs| - 1][1..];
    }
  }

  lemma BytesOfMore(bs: seq<Backup>, b: Backup)
    ensures Bytes(bs + [b]) == Bytes(bs) + b.size && bs + [] == bs
  {
    OneMoreBackup(bs, b);
  }

  lemma {:induction false} BytesSplit(p: Policy, active: seq<Backup>, now: int)
    ensures Bytes(active) == Bytes(Survivors(p, active, now)) + Bytes(BackupsOf(Trashed(p, active, now)))
  {
    hide Decision, BackupsOf, Trashed, Bytes;
    if active == [] {
      PlanOfNothing(p, now);
    } else {
      var newer, b := active[..|active| - 1], active[|active| - 1];
      BytesSplit(p, newer, now);
      assert active == newer + [b];
      TrashedLast(p, active, now);
      BytesOfMore(newer, b);
      BytesOfMore(Survivors(p, newer, now), b);
      BytesOfMore(BackupsOf(Trashed(p, newer, now)), b);
    }
  }

  /** The plan's two numbers are the sizes of what it lists, and no byte is lost or counted twice: what
      stays active and what goes to trash add up to what was active. */
  lemma PlanBytes(p: Policy, active: seq<Backup>, trash: seq<Backup>, now: int)
    ensures var plan := PlanSpec(p, active, trash, now);
            && plan.trashBytes == SizeOf(BackupsOf(plan.toTrash)) && plan.purgeBytes == SizeOf(plan.toPurge)
            && SizeOf(active) == SizeOf(Survivors(p, active, now)) + plan.trashBytes
            && |BackupsOf(plan.toTrash)| == |plan.toTrash|
            && forall i :: 0 <= i < |plan.toTrash| ==> BackupsOf(plan.toTrash)[i] == plan.toTrash[i].backup
  {
    hide Trashed, Purged, Survivors, Bytes, SizeOf, BackupsOf;
    var plan := PlanSpec(p, active, trash, now);
    BytesIsSize(BackupsOf(plan.toTrash));
    BytesIsSize(plan.toPurge);
    BytesIsSize(active);
    BytesIsSize(Survivors(p, active, now));
    BytesSplit(p, active, now);
    BackupsInOrder(plan.toTrash);
  }

  lemma {:induction false} BackupsInOrder(cs: seq<Candidate>)
    ensures |BackupsOf(cs)| == |cs| && forall i :: 0 <= i < |cs| ==> BackupsOf(cs)[i] == cs[i].backup
  {
    if cs != [] {
      BackupsInOrder(cs[..|cs| - 1]);
    }
  }
}
