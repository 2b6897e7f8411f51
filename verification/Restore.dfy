/**
  Restoring a snapshot (internal/backups/backups.go, extractWorld): the archive is unpacked beside the
  server's directory, then two renames swap it in. A directory of whole trees stands for the servers
  directory; a rename moves a whole tree or fails and moves nothing.
 */
module Restore {
  import opened Options

  /** The calls that may fail, or after which the context may have ended. */
  datatype Point = MakeStage | Extract | Context | MoveOld | MoveNew | MoveBack | RemoveStage

  class ServersDirectory<Tree(==)> {
    var entries: map<string, Tree>
    /** The directory at every moment so far, each change appended: what a crash could leave behind. */
    ghost var moments: seq<map<string, Tree>>

    ghost predicate Valid()
      reads this
    {
      moments != [] && moments[|moments| - 1] == entries
    }

    constructor (entries: map<string, Tree>)
      ensures Valid() && this.entries == entries && moments == [entries]
    {
      this.entries := entries;
      moments := [entries];
    }

    method Put(name: string, tree: Tree)
      requires Valid()
      modifies this
      ensures Valid() && entries == old(entries)[name := tree] && moments == old(moments) + [entries]
    {
      entries := entries[name := tree];
      moments := moments + [entries];
    }

    method RemoveAll(name: string)
      requires Valid()
      modifies this
      ensures Valid() && entries == old(entries) - {name} && moments == old(moments) + [entries]
    {
      entries := entries - {name};
      moments := moments + [entries];
    }

    method Rename(from: string, to: string, fails: bool) returns (ok: bool)
      requires Valid()
      modifies this
      ensures Valid() && ok == (!fails && from in old(entries) && to !in old(entries))
      ensures ok ==> entries == (old(entries) - {from})[to := old(entries)[from]] && moments == old(moments) + [entries]
      ensures !ok ==> entries == old(entries) && moments == old(moments)
    {
      if fails || from !in entries || to in entries {
        return false;
      }
      entries := (entries - {from})[to := entries[from]];
      moments := moments + [entries];
      return true;
    }

    /** The tree that was at `server` is there still, or whole at `recovery`; nothing but a whole tree
        is ever at `server`; and no other name has changed. */
    ghost predicate Kept(before: map<string, Tree>, moment: map<string, Tree>, server: string, stage: string,
                         recovery: string, unpacked: Option<Tree>)
      requires server in before
    {
      && ((server in moment && moment[server] == before[server])
          || (recovery in moment && moment[recovery] == before[server]))
      && (server in moment ==> moment[server] == before[server] || Some(moment[server]) == unpacked)
      && (forall name :: name != server && name != stage && name != recovery ==>
            (name in moment <==> name in before) && (name in moment ==> moment[name] == before[name]))
    }

    /** Every moment since `first` kept the previous tree. */
    ghost predicate KeptSince(first: nat, before: map<string, Tree>, server: string, stage: string,
                              recovery: string, unpacked: Option<Tree>)
      requires server in before
      reads this
    {
      forall i :: first <= i < |moments| ==> Kept(before, moments[i], server, stage, recovery, unpacked)
    }

    /** The two renames, and the way back if the second fails. */
    method Swap(server: string, stage: string, recovery: string, fails: set<Point>) returns (ok: bool)
      requires Valid() && server in entries && stage in entries
      requires recovery !in entries && stage != recovery && server != stage && server != recovery
      modifies this
      ensures Valid() && old(moments) <= moments
      ensures KeptSince(|old(moments)|, old(entries), server, stage, recovery, Some(old(entries)[stage]))
      ensures ok <==> MoveOld !in fails && MoveNew !in fails
      ensures ok ==>
        entries == (old(entries) - {stage})[server := old(entries)[stage]][recovery := old(entries)[server]]
      ensures !ok && !(MoveOld !in fails && MoveBack in fails) ==> entries == old(entries)
      ensures !ok && MoveOld !in fails && MoveBack in fails ==>
        entries == (old(entries) - {server})[recovery := old(entries)[server]]
    {
      var moved := Rename(server, recovery, MoveOld in fails);
      if !moved {
        return false;
      }
      ok := Rename(stage, server, MoveNew in fails);
      if !ok {
        var back := Rename(recovery, server, MoveBack in fails);
        assert back ==> entries == old(entries);
      }
    }

    /** Before the renames only the stage differs, and that is no loss. */
    lemma StageIsNoLoss(before: map<string, Tree>, moment: map<string, Tree>, server: string, stage: string,
                        recovery: string, unpacked: Option<Tree>)
      requires server in before && server != stage && moment - {stage} == before - {stage}
      ensures Kept(before, moment, server, stage, recovery, unpacked)
    {
      assert forall name :: name != stage ==> (name in moment <==> name in moment - {stage});
      assert forall name :: name != stage ==> (name in before <==> name in before - {stage});
      assert forall name :: name != stage && name in before ==> moment[name] == (moment - {stage})[name];
    }

    /** Unpack into the stage; whether it went well, only the stage has changed. */
    method Unpack(stage: string, unpacked: Option<Tree>, bare: Tree, partial: Tree, fails: set<Point>)
      returns (ok: bool)
      requires Valid() && stage !in entries
      modifies this
      ensures Valid() && ok == (Extract !in fails && unpacked.Some?)
      ensures entries == old(entries)[stage := if ok then unpacked.value else partial]
      ensures moments == old(moments) + [old(entries)[stage := bare], entries]
    {
      Put(stage, bare);
      ok := Extract !in fails && unpacked.Some?;
      Put(stage, if ok then unpacked.value else partial);
    }

    /** `unpacked` is what the archive holds, None if it does not validate; `partial` is what a failed
        extraction leaves in the stage. The stage and recovery names are new, as random names are. */
    method ExtractWorld(server: string, stage: string, recovery: string, unpacked: Option<Tree>,
                        bare: Tree, partial: Tree, fails: set<Point>) returns (ok: bool)
      requires Valid()
      requires stage !in entries && recovery !in entries && stage != recovery && server != stage && server != recovery
      modifies this
      ensures Valid() && old(moments) <= moments
      // at every moment, so after a crash at any moment, the previous tree is whole
      ensures server in old(entries) ==>
        KeptSince(|old(moments)|, old(entries), server, stage, recovery, unpacked)
      // success is exactly: the server exists, the archive validates, and no call on the way failed
      ensures ok <==> server in old(entries) && unpacked.Some? && MakeStage !in fails && Extract !in fails
                      && Context !in fails && MoveOld !in fails && MoveNew !in fails
      // a restore that reports success is complete, and keeps the previous tree under the recovery name
      ensures ok ==> entries == old(entries)[server := unpacked.value][recovery := old(entries)[server]]
      // one that fails changes nothing but its own stage, unless the second rename could not be undone:
      // then the previous tree is at the recovery name
      ensures !ok && !(MoveNew in fails && MoveBack in fails) ==> entries - {stage} == old(entries)
      ensures !ok && server in old(entries) && entries - {stage} != old(entries) ==>
        server !in entries && recovery in entries && entries[recovery] == old(entries)[server]
    {
      hide Kept;
      if server !in entries || MakeStage in fails {
        assert entries - {stage} == entries;
        return false;
      }
      ghost var before := entries;
      ok := Unpack(stage, unpacked, bare, partial, fails);
      StageIsNoLoss(before, before[stage := bare], server, stage, recovery, unpacked);
      StageIsNoLoss(before, entries, server, stage, recovery, unpacked);
      ghost var staged := entries;
      ok := ok && Context !in fails;
      if ok {
        ok := Swap(server, stage, recovery, fails);
        SameLoss(staged, before, server, stage, recovery, unpacked);
      }
      // the deferred removal of the stage, which after a success has nothing left to remove
      if stage in entries && RemoveStage !in fails {
        ghost var last := entries;
        RemoveAll(stage);
        StageIsNoLossEither(before, last, server, stage, recovery, unpacked);
      }
    }

    /** Losses are counted on the other names, so measuring from the staged directory is the same. */
    lemma SameLoss(staged: map<string, Tree>, before: map<string, Tree>, server: string, stage: string,
                   recovery: string, unpacked: Option<Tree>)
      requires server in before && server in staged && server != stage && staged - {stage} == before - {stage}
      ensures forall m: map<string, Tree> ::
        Kept(staged, m, server, stage, recovery, unpacked) ==> Kept(before, m, server, stage, recovery, unpacked)
    {
      assert forall name :: name != stage ==> (name in staged <==> name in staged - {stage});
      assert forall name :: name != stage ==> (name in before <==> name in before - {stage});
      assert forall name :: name != stage && name in before ==> staged[name] == (staged - {stage})[name];
    }

    lemma StageIsNoLossEither(before: map<string, Tree>, moment: map<string, Tree>, server: string, stage: string,
                              recovery: string, unpacked: Option<Tree>)
      requires server in before && server != stage && recovery != stage
      requires Kept(before, moment, server, stage, recovery, unpacked)
      ensures Kept(before, moment - {stage}, server, stage, recovery, unpacked)
    {
    }
  }
}
