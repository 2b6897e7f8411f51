/**
  Which saves go through (internal/servers/nbt.go, WriteNBT; internal/servers/files.go, WriteFileContent):
  the exact condition on the file a save finds under the mutex, and what a save leaves behind when no
  statement of its own fails.
 */
module SaveOutcomes {
  import opened Options
  import opened Bytes
  import opened Nbt
  import opened RevisionSaves

  /** The revision of what the caller has seen; empty where it has seen that there is no file. */
  function Seen(env: Env, seen: Option<Content>): GoString {
    if seen.None? then [] else env.revision(seen.value)
  }

  /** A text save is accepted exactly if the file is still what the caller saw, and neither it nor the new
      text is longer than 5 MiB; then the text is written as it is. */
  lemma TextSaveAccepted(env: Env, path: string, seen: Option<Content>, content: Content, found: Option<Content>)
    requires CollisionFree(env)
    ensures Prepared(env, TextSave(path, Seen(env, seen), content), found)
         == if found == seen && |content| <= 5242880 && (found.Some? ==> |found.value| <= 5242880)
            then Some(content) else None
  {
  }

  /** An NBT save is accepted exactly if the file exists, is still what the caller saw, decodes, and the new
      document can be encoded under the compression that the file has. */
  lemma NbtSaveAccepted(env: Env, path: string, seen: Option<Content>, document: Document, found: Option<Content>)
    requires CollisionFree(env)
    ensures var data := Prepared(env, NbtSave(path, Seen(env, seen), document), found);
            var previous := if found.Some? then DecodeSpec(env.floats, env.packer, found.value) else None;
            if found == seen && previous.Some?
            then data == EncodeSpec(env.floats, env.packer, Document(previous.value.compression, document.root))
            else data == None
  {
    hide DecodeSpec, EncodeSpec;
  }

  /** A save can be asked for at any time, of any file that is not a backup or a temporary file of another. */
  lemma SavesCanBeAskedFor(env: Env, d: Disk, id: nat, job: Job)
    requires id !in d.jobs && job.path !in d.scratch
    ensures Enabled(d, Submit(id, job))
    ensures Next(env, d, Submit(id, job)) == d.(jobs := d.jobs[id := job], phases := d.phases[id := Waiting])
  {
  }

  /** The steps of one save in which no statement fails. */
  function Steps(job: Job, id: nat, backup: string, temp: string): seq<Step> {
    [Acquire(id), Check(id, true)]
    + (if job.NbtSave? then [Backup(id, backup, true, None), Stage(id, temp, true, None)] else [])
    + [Commit(id, true, true)]
  }

  lemma RunFirst(env: Env, d: Disk, steps: seq<Step>)
    requires steps != [] && Enabled(d, steps[0]) && IsRun(env, Next(env, d, steps[0]), steps[1..])
    ensures IsRun(env, d, steps) && After(env, d, steps) == After(env, Next(env, d, steps[0]), steps[1..])
  {
  }

  /** A waiting save of an accepted text, with the mutex free: it replaces the file and reports success. */
  lemma TextSaveGoesThrough(env: Env, d: Disk, id: nat)
    requires id in d.jobs && id in d.phases && d.phases[id] == Waiting && d.holder == None && d.jobs[id].TextSave?
    requires Prepared(env, d.jobs[id], Read(d, d.jobs[id].path)).Some?
    ensures var job, steps := d.jobs[id], Steps(d.jobs[id], id, "", "");
            IsRun(env, d, steps)
            && var d' := After(env, d, steps);
               && d'.phases == d.phases[id := Finished(true)] && d'.holder == None
               && d'.files == d.files[job.path := job.content]
  {
    hide Enabled;
    var job := d.jobs[id];
    var original := Read(d, job.path);
    var one := Enter(d, id, Locked).(holder := Some(id));
    var two := Enter(one, id, Checked(original, job.content));
    assert Enabled(d, Acquire(id)) && Enabled(one, Check(id, true)) && Enabled(two, Commit(id, true, true)) by {
      EnabledText(d, id, original, job.content);
    }
    assert Next(env, d, Acquire(id)) == one && Read(one, job.path) == original;
    assert Prepared(env, job, original) == Some(job.content) by {
      hide DecodeSpec, EncodeSpec;
    }
    assert Next(env, one, Check(id, true)) == two;
    var steps := Steps(job, id, "", "");
    assert steps == [Acquire(id), Check(id, true), Commit(id, true, true)];
    assert steps[1..] == [Check(id, true), Commit(id, true, true)] && steps[1..][1..] == [Commit(id, true, true)];
    assert [Commit(id, true, true)][1..] == [];
    RunFirst(env, two, [Commit(id, true, true)]);
    RunFirst(env, one, steps[1..]);
    RunFirst(env, d, steps);
  }

  lemma EnabledText(d: Disk, id: nat, original: Option<Content>, content: Content)
    requires id in d.jobs && id in d.phases && d.phases[id] == Waiting && d.holder == None && d.jobs[id].TextSave?
    ensures var one := Enter(d, id, Locked).(holder := Some(id));
            var two := Enter(one, id, Checked(original, content));
            Enabled(d, Acquire(id)) && Enabled(one, Check(id, true)) && Enabled(two, Commit(id, true, true))
  {
  }

  /** A save that is not accepted is refused as soon as it looks, and changes nothing. */
  lemma UnacceptedSaveIsRefused(env: Env, d: Disk, id: nat)
    requires id in d.jobs && id in d.phases && d.phases[id] == Waiting && d.holder == None
    requires Prepared(env, d.jobs[id], Read(d, d.jobs[id].path)).None?
    ensures IsRun(env, d, [Acquire(id), Check(id, true)])
            && var d' := After(env, d, [Acquire(id), Check(id, true)]);
               d'.phases == d.phases[id := Finished(false)] && d'.holder == None && d'.files == d.files
  {
    hide Prepared;
    var one := Enter(d, id, Locked).(holder := Some(id));
    assert Read(one, d.jobs[id].path) == Read(d, d.jobs[id].path);
    var steps := [Acquire(id), Check(id, true)];
    assert steps[1..] == [Check(id, true)] && steps[1..][1..] == [];
    RunFirst(env, one, steps[1..]);
    RunFirst(env, d, steps);
  }

  /** The states of an NBT save in which no statement fails. */
  function Stages(d: Disk, id: nat, original: Content, data: Content, backup: string, temp: string): (s: seq<Disk>)
    requires id in d.jobs
    ensures |s| == 4
  {
    var one := Enter(d, id, Locked).(holder := Some(id));
    var two := Enter(one, id, Checked(Some(original), data));
    var three := Enter(two.(scratch := d.scratch + {backup}), id, BackedUp(Some(original), data, backup))
                 .(files := d.files[backup := original]);
    var four := Enter(three.(scratch := d.scratch + {backup} + {temp}), id,
                      Staged(Some(original), data, backup, temp))
                .(files := d.files[backup := original][temp := data]);
    [one, two, three, four]
  }

  lemma StagesFollow(env: Env, d: Disk, id: nat, data: Content, backup: string, temp: string)
    requires id in d.jobs && id in d.phases && d.phases[id] == Waiting && d.holder == None && d.jobs[id].NbtSave?
    requires Read(d, d.jobs[id].path).Some? && Prepared(env, d.jobs[id], Read(d, d.jobs[id].path)) == Some(data)
    requires Fresh(d, backup) && Fresh(d, temp) && backup != temp
    ensures var s := Stages(d, id, Read(d, d.jobs[id].path).value, data, backup, temp);
            && Enabled(d, Acquire(id)) && Next(env, d, Acquire(id)) == s[0]
            && Enabled(s[0], Check(id, true)) && Next(env, s[0], Check(id, true)) == s[1]
            && Enabled(s[1], Backup(id, backup, true, None)) && Next(env, s[1], Backup(id, backup, true, None)) == s[2]
            && Enabled(s[2], Stage(id, temp, true, None)) && Next(env, s[2], Stage(id, temp, true, None)) == s[3]
            && Enabled(s[3], Commit(id, true, true))
  {
    hide Prepared;
    var s := Stages(d, id, Read(d, d.jobs[id].path).value, data, backup, temp);
    assert Read(s[0], d.jobs[id].path) == Read(d, d.jobs[id].path);
    assert Fresh(s[1], backup);
    assert Fresh(s[2], temp);
  }

  lemma NbtCommit(env: Env, d: Disk, id: nat, data: Content, backup: string, temp: string)
    requires id in d.jobs && id in d.phases && d.phases[id] == Waiting && d.holder == None && d.jobs[id].NbtSave?
    requires Read(d, d.jobs[id].path).Some? && Prepared(env, d.jobs[id], Read(d, d.jobs[id].path)) == Some(data)
    requires Fresh(d, backup) && Fresh(d, temp) && backup != temp
    requires Enabled(Stages(d, id, Read(d, d.jobs[id].path).value, data, backup, temp)[3], Commit(id, true, true))
    ensures var original := Read(d, d.jobs[id].path).value;
            var d' := Next(env, Stages(d, id, original, data, backup, temp)[3], Commit(id, true, true));
            && d'.phases == d.phases[id := Finished(true)] && d'.holder == None
            && d'.files == d.files[backup := original][d.jobs[id].path := data]
  {
    hide DecodeSpec, EncodeSpec;
    var path := d.jobs[id].path;
    var staged := Stages(d, id, Read(d, path).value, data, backup, temp)[3];
    assert backup != path && temp != path;
    assert Read(staged, path) == Read(d, path);
    assert d.files[backup := Read(d, path).value][temp := data] - {temp} == d.files[backup := Read(d, path).value];
  }

  /** A waiting save of an accepted document, with the mutex free and two fresh names: it replaces the file,
      keeps the bytes it replaced under the backup's name, leaves no temporary file and reports success. */
  lemma NbtSaveGoesThrough(env: Env, d: Disk, id: nat, backup: string, temp: string)
    requires id in d.jobs && id in d.phases && d.phases[id] == Waiting && d.holder == None && d.jobs[id].NbtSave?
    requires Read(d, d.jobs[id].path).Some? && Prepared(env, d.jobs[id], Read(d, d.jobs[id].path)).Some?
    requires Fresh(d, backup) && Fresh(d, temp) && backup != temp
    ensures var job, steps := d.jobs[id], Steps(d.jobs[id], id, backup, temp);
            var original := Read(d, job.path).value;
            IsRun(env, d, steps)
            && var d' := After(env, d, steps);
               && d'.phases == d.phases[id := Finished(true)] && d'.holder == None
               && d'.files == d.files[backup := original][job.path := Prepared(env, job, Some(original)).value]
  {
    hide Enabled, Next, Prepared, Stages, Read, Fresh;
    var original := Read(d, d.jobs[id].path).value;
    var data := Prepared(env, d.jobs[id], Some(original)).value;
    var s := Stages(d, id, original, data, backup, temp);
    StagesFollow(env, d, id, data, backup, temp);
    NbtCommit(env, d, id, data, backup, temp);
    var a, b, c, e, f := Acquire(id), Check(id, true), Backup(id, backup, true, None), Stage(id, temp, true, None),
                         Commit(id, true, true);
    var steps := Steps(d.jobs[id], id, backup, temp);
    assert steps == [a, b, c, e, f] && steps[1..] == [b, c, e, f] && [b, c, e, f][1..] == [c, e, f];
    assert [c, e, f][1..] == [e, f] && [e, f][1..] == [f] && [f][1..] == [];
    RunFirst(env, s[3], [f]);
    RunFirst(env, s[2], [e, f]);
    RunFirst(env, s[1], [c, e, f]);
    RunFirst(env, s[0], [b, c, e, f]);
    RunFirst(env, d, steps);
  }

  /** A text save whose rename works has replaced the file and reports what it then finds; one whose rename
      fails reports failure, and the file is as it was. */
  lemma TextCommitReports(env: Env, d: Disk, id: nat, renamed: bool, reported: bool)
    requires id in d.jobs && id in d.phases && d.phases[id].Checked? && d.jobs[id].TextSave?
    ensures Enabled(d, Commit(id, renamed, reported))
    ensures var d' := Next(env, d, Commit(id, renamed, reported));
            && d'.phases == d.phases[id := Finished(renamed && reported)] && d'.holder == None
            && d'.files == (if renamed then d.files[d.jobs[id].path := d.phases[id].data] else d.files)
  {
  }
}
