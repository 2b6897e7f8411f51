/**
  Saves that carry an expected revision (internal/servers/nbt.go, WriteNBT; internal/servers/files.go,
  WriteFileContent). The steps of a save interleave with those of any number of others, with failures
  anywhere and with crashes of the panel; one mutex serializes what reads or writes the files.
  A revision is any function that tells different contents apart, and is never the empty text that
  stands for a missing file. Nobody else writes these files.
 */
module RevisionSaves {
  import opened Options
  import opened Bytes
  import opened ModifiedUtf8
  import opened Nbt
  import opened NbtEncodeDecode

  type Content = seq<byte>

  /** What the environment supplies: number formatting, compression and hashing. */
  datatype Env = Env(floats: FloatText, packer: Compressor, revision: Content -> GoString)

  ghost predicate CollisionFree(env: Env) {
    (forall a: Content, b: Content :: env.revision(a) == env.revision(b) ==> a == b)
    && (forall a: Content :: env.revision(a) != [])
  }

  /** There are such functions, whatever else the environment is. */
  lemma CollisionFreeCanBeMet(env: Env)
    ensures CollisionFree(env.(revision := (c: Content) => [0] + c))
  {
    forall a: Content, b: Content | [0] + a == [0] + b ensures a == b {
      assert ([0] + a)[1..] == a && ([0] + b)[1..] == b;
    }
  }

  datatype Job =
    | NbtSave(path: string, expected: GoString, document: Document)
    | TextSave(path: string, expected: GoString, content: Content)

  datatype Phase =
    | Waiting
    | Locked
    | Checked(original: Option<Content>, data: Content)
    | BackedUp(original: Option<Content>, data: Content, backup: string)
    | Staged(original: Option<Content>, data: Content, backup: string, temp: string)
    | Finished(ok: bool)

  /** `backup` is the name of an NBT save's backup. */
  datatype Save = Save(id: nat, job: Job, base: Option<Content>, result: Content, backup: string)

  /** `saves` is history, and `scratch` the names ever used for backups and temporary files. */
  datatype Disk = Disk(
    files: map<string, Content>,
    holder: Option<nat>,
    jobs: map<nat, Job>,
    phases: map<nat, Phase>,
    saves: seq<Save>,
    scratch: set<string>)

  datatype Step =
    | Submit(id: nat, job: Job)
    | Acquire(id: nat)
    | Check(id: nat, readable: bool)
    | Backup(id: nat, name: string, ok: bool, left: Option<Content>)
    | Stage(id: nat, name: string, ok: bool, left: Option<Content>)
    | Commit(id: nat, renamed: bool, reported: bool)   // a text save may still fail after its rename
    | Crash

  function Read(d: Disk, path: string): Option<Content> {
    if path in d.files then Some(d.files[path]) else None
  }

  function RevisionOf(env: Env, c: Option<Content>): GoString {
    if c.None? then [] else env.revision(c.value)
  }

  const MAX_EDIT: nat := 5 * 1024 * 1024

  /** The bytes to write over `original`, or None where the save is refused: an NBT save needs the
      file to exist at the expected revision and to decode, and keeps its compression. A text save
      that expects a missing file expects the empty revision. */
  function Prepared(env: Env, job: Job, original: Option<Content>): Option<Content> {
    if RevisionOf(env, original) != job.expected then None
    else
      match job
      case TextSave(_, _, content) =>
        if |content| > MAX_EDIT || (original.Some? && |original.value| > MAX_EDIT) then None else Some(content)
      case NbtSave(_, expected, document) =>
        if original.None? || expected == [] then None
        else
          var previous :- DecodeSpec(env.floats, env.packer, original.value);
          EncodeSpec(env.floats, env.packer, Document(previous.compression, document.root))
  }

  function Enter(d: Disk, id: nat, phase: Phase): Disk {
    d.(phases := d.phases[id := phase])
  }

  /** Returning releases the mutex. */
  function Return(d: Disk, id: nat, ok: bool): Disk {
    Enter(d, id, Finished(ok)).(holder := None)
  }

  predicate Fresh(d: Disk, name: string) {
    name !in d.files && name !in d.scratch && forall id :: id in d.jobs ==> d.jobs[id].path != name
  }

  predicate Enabled(d: Disk, step: Step) {
    match step
    case Submit(id, job) => id !in d.jobs && job.path !in d.scratch
    case Crash => true
    case _ =>
      step.id in d.jobs && step.id in d.phases
      && var phase := d.phases[step.id];
         var job := d.jobs[step.id];
         match step
         case Acquire(_) => phase.Waiting? && d.holder == None
         case Check(_, _) => phase.Locked?
         case Backup(_, name, _, _) => phase.Checked? && job.NbtSave? && Fresh(d, name)
         case Stage(_, name, _, _) => phase.BackedUp? && Fresh(d, name)
         case Commit(_, _, _) => phase.Staged? || (phase.Checked? && job.TextSave?)
  }

  function Next(env: Env, d: Disk, step: Step): Disk
    requires Enabled(d, step)
  {
    match step
    case Submit(id, job) => Enter(d, id, Waiting).(jobs := d.jobs[id := job])
    case Acquire(id) => Enter(d, id, Locked).(holder := Some(id))
    case Check(id, readable) =>
      var original := Read(d, d.jobs[id].path);
      var data := Prepared(env, d.jobs[id], original);
      if !readable || data.None? then Return(d, id, false) else Enter(d, id, Checked(original, data.value))
    case Backup(id, name, ok, left) =>
      var p := d.phases[id];
      var d' := d.(scratch := d.scratch + {name});
      if ok && p.original.Some? then
        Enter(d', id, BackedUp(p.original, p.data, name)).(files := d.files[name := p.original.value])
      else Return(if left.None? then d' else d'.(files := d.files[name := left.value]), id, false)
    case Stage(id, name, ok, left) =>
      var p := d.phases[id];
      var d' := d.(scratch := d.scratch + {name});
      if ok then Enter(d', id, Staged(p.original, p.data, p.backup, name)).(files := d.files[name := p.data])
      else Return(if left.None? then d' else d'.(files := d.files[name := left.value]), id, false)
    case Commit(id, renamed, reported) =>
      var p, job := d.phases[id], d.jobs[id];
      var backup := if p.Staged? then p.backup else "";
      var done := d.(saves := d.saves + [Save(id, job, p.original, p.data, backup)]);
      if job.TextSave? then
        if renamed then Return(done.(files := d.files[job.path := p.data]), id, reported) else Return(d, id, false)
      else if !renamed || !p.Staged? || RevisionOf(env, Read(d, job.path)) != job.expected then
        Return(if p.Staged? then d.(files := d.files - {p.temp}) else d, id, false)
      else Return(done.(files := (d.files - {p.temp})[job.path := p.data]), id, true)
    case Crash =>
      d.(holder := None,
         phases := map id | id in d.phases :: if d.phases[id].Finished? then d.phases[id] else Finished(false))
  }

  // ---- the invariant -----------------------------------------------------------------------------------

  /** What the saves so far have made of a path. */
  function ContentAfter(init: map<string, Content>, saves: seq<Save>, path: string): Option<Content> {
    if saves == [] then if path in init then Some(init[path]) else None
    else if saves[|saves| - 1].job.path == path then Some(saves[|saves| - 1].result)
    else ContentAfter(init, saves[..|saves| - 1], path)
  }

  /** The k-th save replaced exactly the content with the revision its caller had seen, which was what
      the saves before it had made of the file, by what the caller's edit makes of that content. */
  ghost predicate Linked(env: Env, init: map<string, Content>, saves: seq<Save>, k: nat)
    requires k < |saves|
  {
    var s := saves[k];
    s.base == ContentAfter(init, saves[..k], s.job.path)
    && RevisionOf(env, s.base) == s.job.expected
    && Prepared(env, s.job, s.base) == Some(s.result)
  }

  ghost predicate PhaseOk(env: Env, d: Disk, id: nat)
    requires id in d.jobs && id in d.phases
  {
    var job := d.jobs[id];
    match d.phases[id]
    case Waiting => true
    case Finished(_) => true
    case Locked => d.holder == Some(id)
    case Checked(original, data) =>
      d.holder == Some(id) && original == Read(d, job.path) && Prepared(env, job, original) == Some(data)
    case BackedUp(original, data, backup) =>
      d.holder == Some(id) && job.NbtSave?
      && original == Read(d, job.path) && Prepared(env, job, original) == Some(data)
      && backup in d.scratch && Read(d, backup) == original
    case Staged(original, data, backup, temp) =>
      d.holder == Some(id) && job.NbtSave?
      && original == Read(d, job.path) && Prepared(env, job, original) == Some(data)
      && backup in d.scratch && Read(d, backup) == original && temp in d.scratch && temp != backup
  }

  ghost predicate JobsOk(env: Env, d: Disk) {
    && d.phases.Keys == d.jobs.Keys
    && (forall id :: id in d.jobs ==> d.jobs[id].path !in d.scratch && PhaseOk(env, d, id))
  }

  /** The files are what the saves so far have made of them, and the saves form a chain. */
  ghost predicate FilesOk(env: Env, init: map<string, Content>, d: Disk) {
    && (forall path :: path !in d.scratch ==> Read(d, path) == ContentAfter(init, d.saves, path))
    && (forall k :: 0 <= k < |d.saves| ==> Linked(env, init, d.saves, k))
  }

  /** The k-th save belongs to this job, which is over; an NBT save that replaced its file reported it. */
  ghost predicate SaveOf(d: Disk, k: nat, id: nat)
    requires k < |d.saves|
  {
    d.saves[k].id == id && id in d.jobs && id in d.phases && d.saves[k].job == d.jobs[id] && d.phases[id].Finished?
    && (d.jobs[id].NbtSave? ==> d.phases[id] == Finished(true))
  }

  /** Every save is of one job, no job has two, and every job that reported success has one. */
  ghost predicate HistoryOk(d: Disk) {
    && (forall k :: 0 <= k < |d.saves| ==> SaveOf(d, k, d.saves[k].id))
    && (forall j, k :: 0 <= j < k < |d.saves| ==> d.saves[j].id != d.saves[k].id)
    && (forall id :: id in d.phases && d.phases[id] == Finished(true) ==>
          exists k :: 0 <= k < |d.saves| && d.saves[k].id == id)
  }

  /** The k-th save's backup still holds the bytes that the save replaced. */
  predicate BackupHolds(d: Disk, k: nat)
    requires k < |d.saves|
  {
    d.saves[k].backup in d.scratch && d.saves[k].base.Some? && Read(d, d.saves[k].backup) == d.saves[k].base
  }

  /** So do those of all NBT saves so far, and no temporary file has the name of one. */
  ghost predicate BackupsOk(d: Disk) {
    forall k :: 0 <= k < |d.saves| && d.saves[k].job.NbtSave? ==>
      BackupHolds(d, k)
      && forall id :: id in d.phases && d.phases[id].Staged? ==> d.phases[id].temp != d.saves[k].backup
  }

  ghost predicate Inv(env: Env, init: map<string, Content>, d: Disk) {
    JobsOk(env, d) && FilesOk(env, init, d) && HistoryOk(d) && BackupsOk(d)
  }

  lemma LinkedMore(env: Env, init: map<string, Content>, saves: seq<Save>, s: Save)
    requires forall k :: 0 <= k < |saves| ==> Linked(env, init, saves, k)
    requires s.base == ContentAfter(init, saves, s.job.path)
    requires RevisionOf(env, s.base) == s.job.expected && Prepared(env, s.job, s.base) == Some(s.result)
    ensures forall k :: 0 <= k < |saves + [s]| ==> Linked(env, init, saves + [s], k)
    ensures forall path :: ContentAfter(init, saves + [s], path)
                        == if path == s.job.path then Some(s.result) else ContentAfter(init, saves, path)
  {
    hide Prepared;
    var all := saves + [s];
    forall k | 0 <= k < |all| ensures Linked(env, init, all, k) {
      if k < |saves| {
        assert all[..k] == saves[..k];
        assert Linked(env, init, saves, k);
      } else {
        assert all[..k] == saves;
      }
    }
    assert all[..|saves|] == saves;
  }

  /** Someone else's step under the mutex is not possible; one outside it changes nothing this job saw. */
  lemma OthersKept(env: Env, d: Disk, d': Disk, id: nat)
    requires id in d.jobs && id in d.phases && PhaseOk(env, d, id)
    requires id in d'.jobs && id in d'.phases && d'.jobs[id] == d.jobs[id] && d'.phases[id] == d.phases[id]
    requires d.holder == Some(id) ==> d' == d.(jobs := d'.jobs, phases := d'.phases)
    ensures PhaseOk(env, d', id)
  {
    hide Prepared;
  }

  lemma StepKeepsInv(env: Env, init: map<string, Content>, d: Disk, step: Step)
    requires Inv(env, init, d) && Enabled(d, step)
    ensures Inv(env, init, Next(env, d, step))
  {
    hide Next, Enabled, JobsOk, FilesOk, HistoryOk, BackupsOk;
    HistoryKept(env, d, step);
    BackupsKept(env, d, step);
    if step.Commit? {
      CommitKeepsInv(env, init, d, step);
    } else if step.Backup? || step.Stage? {
      ScratchKeepsInv(env, init, d, step);
    } else {
      FilelessKeepsInv(env, init, d, step);
    }
  }

  /** What a step adds to the history: nothing, or one save of a job that it completes. */
  ghost predicate AddsTo(d: Disk, d': Disk, step: Step) {
    d'.saves == d.saves
    || (step.Commit? && step.id in d.phases && !d.phases[step.id].Finished?
        && |d'.saves| == |d.saves| + 1 && d'.saves[..|d.saves|] == d.saves
        && d'.saves[|d.saves|].id == step.id && SaveOf(d', |d.saves|, step.id))
  }

  /** What is over stays as it was, and success is new only where a save is. */
  ghost predicate Settles(d: Disk, d': Disk) {
    && (forall id :: id in d.jobs && id in d.phases && d.phases[id].Finished? ==>
          id in d'.jobs && id in d'.phases && d'.jobs[id] == d.jobs[id] && d'.phases[id] == d.phases[id])
    && (forall id :: id in d'.phases && d'.phases[id] == Finished(true) ==>
          (id in d.phases && d.phases[id] == Finished(true))
          || (|d'.saves| == |d.saves| + 1 && d'.saves[|d.saves|].id == id))
  }

  lemma StepAdds(env: Env, d: Disk, step: Step)
    requires Enabled(d, step)
    ensures AddsTo(d, Next(env, d, step), step)
  {
    hide Prepared, Fresh;
  }

  lemma CommitSettles(env: Env, d: Disk, step: Step)
    requires Enabled(d, step) && step.Commit?
    ensures Settles(d, Next(env, d, step))
  {
    hide Prepared, Fresh, Read, RevisionOf, Settles;
    var d', id := Next(env, d, step), step.id;
    assert d'.jobs == d.jobs && d'.phases == d.phases[id := d'.phases[id]];
    OneSettles(d, d', id);
  }

  lemma CrashSettles(env: Env, d: Disk, step: Step)
    requires step.Crash?
    ensures Settles(d, Next(env, d, step))
  {
  }

  lemma StepSettles(env: Env, d: Disk, step: Step)
    requires Enabled(d, step)
    ensures Settles(d, Next(env, d, step))
  {
    hide Prepared, Fresh, Settles, Read;
    if step.Commit? {
      CommitSettles(env, d, step);
    } else if step.Crash? {
      CrashSettles(env, d, step);
    } else {
      EnteringSettles(env, d, step);
    }
  }

  lemma EnteringSettles(env: Env, d: Disk, step: Step)
    requires Enabled(d, step) && !step.Commit? && !step.Crash?
    ensures Settles(d, Next(env, d, step))
  {
    hide Prepared, Fresh, Read, Settles;
    var d', id := Next(env, d, step), step.id;
    assert d'.phases.Keys == d.phases.Keys + {id} && d'.phases[id] != Finished(true) && d'.saves == d.saves;
    assert d'.phases == d.phases[id := d'.phases[id]];
    assert d'.jobs == if step.Submit? then d.jobs[id := step.job] else d.jobs;
    assert id in d.jobs && id in d.phases ==> !d.phases[id].Finished?;
    OneSettles(d, d', id);
  }

  /** One job entered another phase, and did not succeed yet. */
  lemma OneSettles(d: Disk, d': Disk, id: nat)
    requires id in d.jobs && id in d.phases ==> !d.phases[id].Finished?
    requires id in d'.phases && d'.phases == d.phases[id := d'.phases[id]]
    requires d'.phases[id] == Finished(true) ==> |d'.saves| == |d.saves| + 1 && d'.saves[|d.saves|].id == id
    requires d'.jobs == d.jobs || (id in d'.jobs && d'.jobs == d.jobs[id := d'.jobs[id]])
    ensures Settles(d, d')
  {
  }

  lemma HistoryKept(env: Env, d: Disk, step: Step)
    requires HistoryOk(d) && Enabled(d, step)
    ensures HistoryOk(Next(env, d, step))
  {
    hide Next, Enabled;
    StepAdds(env, d, step);
    StepSettles(env, d, step);
    var d' := Next(env, d, step);
    assert forall k :: 0 <= k < |d.saves| ==> d'.saves[k] == d'.saves[..|d.saves|][k] == d.saves[k];
    forall k | 0 <= k < |d.saves| ensures SaveOf(d', k, d'.saves[k].id) {
      assert SaveOf(d, k, d.saves[k].id);
    }
    forall id | id in d'.phases && d'.phases[id] == Finished(true)
      ensures exists k :: 0 <= k < |d'.saves| && d'.saves[k].id == id
    {
      if id in d.phases && d.phases[id] == Finished(true) {
        var k :| 0 <= k < |d.saves| && d.saves[k].id == id;
        assert d'.saves[k].id == id;
      }
    }
  }

  lemma BackupsKept(env: Env, d: Disk, step: Step)
    requires JobsOk(env, d) && BackupsOk(d) && Enabled(d, step)
    ensures BackupsOk(Next(env, d, step))
  {
    hide JobsOk, BackupsOk, Next, Enabled;
    if step.Commit? {
      CommitKeepsBackups(env, d, step);
    } else if step.Backup? || step.Stage? {
      ScratchKeepsBackups(env, d, step);
    } else {
      FilelessKeepsBackups(env, d, step);
    }
  }

  lemma FilelessKeepsBackups(env: Env, d: Disk, step: Step)
    requires BackupsOk(d) && Enabled(d, step)
    requires step.Submit? || step.Acquire? || step.Check? || step.Crash?
    ensures BackupsOk(Next(env, d, step))
  {
    hide Prepared, Fresh;
    var d' := Next(env, d, step);
    assert d'.files == d.files && d'.saves == d.saves && d'.scratch == d.scratch;
    forall k | 0 <= k < |d.saves| && d.saves[k].job.NbtSave? ensures BackupHolds(d', k) {
      assert BackupHolds(d, k);
    }
  }

  /** A fresh name is none of the backups so far. */
  lemma ScratchKeepsBackups(env: Env, d: Disk, step: Step)
    requires BackupsOk(d) && Enabled(d, step) && (step.Backup? || step.Stage?)
    ensures BackupsOk(Next(env, d, step))
  {
    hide Prepared;
    var d' := Next(env, d, step);
    assert d'.saves == d.saves && d'.scratch == d.scratch + {step.name};
    assert forall name :: name != step.name ==> Read(d', name) == Read(d, name);
    forall k | 0 <= k < |d.saves| && d.saves[k].job.NbtSave? ensures BackupHolds(d', k) {
      assert BackupHolds(d, k);
    }
  }

  lemma CommitKeepsBackups(env: Env, d: Disk, step: Step)
    requires JobsOk(env, d) && BackupsOk(d) && Enabled(d, step) && step.Commit?
    ensures BackupsOk(Next(env, d, step))
  {
    hide Prepared;
    var d', p := Next(env, d, step), d.phases[step.id];
    assert PhaseOk(env, d, step.id) && d.jobs[step.id].path !in d.scratch && d'.scratch == d.scratch;
    PreparedAtRevision(env, d.jobs[step.id], p.original);
    assert forall name :: name in d.scratch && (p.Staged? ==> name != p.temp) ==> Read(d', name) == Read(d, name);
    forall k | 0 <= k < |d'.saves| && d'.saves[k].job.NbtSave? ensures BackupHolds(d', k) {
      if k < |d.saves| {
        assert d'.saves[k] == d.saves[k] && BackupHolds(d, k);
      }
    }
    forall id | id in d'.phases && id != step.id ensures !d'.phases[id].Staged? {
      assert id in d.jobs && PhaseOk(env, d, id);
    }
  }

  /** The other steps touch no file. */
  lemma FilelessKeepsInv(env: Env, init: map<string, Content>, d: Disk, step: Step)
    requires Inv(env, init, d) && Enabled(d, step)
    requires step.Submit? || step.Acquire? || step.Check? || step.Crash?
    ensures JobsOk(env, Next(env, d, step)) && FilesOk(env, init, Next(env, d, step))
  {
    hide Prepared, Linked, ContentAfter;
    var d' := Next(env, d, step);
    assert d'.files == d.files && d'.saves == d.saves && d'.scratch == d.scratch;
    if !step.Crash? {
      hide FilesOk;
      forall id | id in d'.jobs ensures PhaseOk(env, d', id) {
        if id != step.id {
          OthersKept(env, d, d', id);
        }
      }
    }
  }

  /** Writing a backup or temporary file, whole or broken, touches no file that a save is about. */
  lemma ScratchKeepsInv(env: Env, init: map<string, Content>, d: Disk, step: Step)
    requires Inv(env, init, d) && Enabled(d, step) && (step.Backup? || step.Stage?)
    ensures JobsOk(env, Next(env, d, step)) && FilesOk(env, init, Next(env, d, step))
  {
    hide Next, FilesOk, PhaseOk;
    ScratchFiles(env, init, d, step);
    var d' := Next(env, d, step);
    ScratchPhase(env, d, step);
    forall id | id in d'.jobs ensures PhaseOk(env, d', id) {
      if id != step.id {
        OtherPhase(env, d, step, id);
      }
    }
  }

  lemma ScratchFiles(env: Env, init: map<string, Content>, d: Disk, step: Step)
    requires Enabled(d, step) && (step.Backup? || step.Stage?) && FilesOk(env, init, d)
    ensures var d' := Next(env, d, step);
      FilesOk(env, init, d') && d'.jobs == d.jobs && d'.phases.Keys == d.phases.Keys
      && forall id :: id in d.jobs && d.jobs[id].path !in d.scratch ==> d.jobs[id].path !in d'.scratch
  {
    hide Linked, ContentAfter, Prepared;
  }

  lemma ScratchPhase(env: Env, d: Disk, step: Step)
    requires Enabled(d, step) && (step.Backup? || step.Stage?) && PhaseOk(env, d, step.id)
    ensures PhaseOk(env, Next(env, d, step), step.id)
  {
    hide Prepared;
  }

  lemma OtherPhase(env: Env, d: Disk, step: Step, id: nat)
    requires Enabled(d, step) && (step.Backup? || step.Stage?) && PhaseOk(env, d, step.id)
    requires id != step.id && id in d.jobs && id in d.phases && PhaseOk(env, d, id)
    ensures PhaseOk(env, Next(env, d, step), id)
  {
    hide Prepared;
  }

  lemma CommitKeepsInv(env: Env, init: map<string, Content>, d: Disk, step: Step)
    requires Inv(env, init, d) && Enabled(d, step) && step.Commit?
    ensures JobsOk(env, Next(env, d, step)) && FilesOk(env, init, Next(env, d, step))
  {
    hide FilesOk, Prepared, Next;
    CommitFiles(env, init, d, step);
    CommitJobs(env, d, step);
  }

  lemma CommitFiles(env: Env, init: map<string, Content>, d: Disk, step: Step)
    requires Inv(env, init, d) && Enabled(d, step) && step.Commit?
    ensures FilesOk(env, init, Next(env, d, step))
  {
    hide Prepared, Linked, ContentAfter;
    var d' := Next(env, d, step);
    var p, job := d.phases[step.id], d.jobs[step.id];
    assert PhaseOk(env, d, step.id);
    if d'.saves != d.saves {
      PreparedAtRevision(env, job, p.original);
      LinkedMore(env, init, d.saves, d'.saves[|d.saves|]);
    }
  }

  lemma CommitJobs(env: Env, d: Disk, step: Step)
    requires JobsOk(env, d) && Enabled(d, step) && step.Commit?
    ensures JobsOk(env, Next(env, d, step))
  {
    hide Prepared;
    var d' := Next(env, d, step);
    assert PhaseOk(env, d, step.id);
    forall id | id in d'.jobs ensures PhaseOk(env, d', id) {
      assert PhaseOk(env, d, id);
    }
  }

  lemma PreparedAtRevision(env: Env, job: Job, original: Option<Content>)
    requires Prepared(env, job, original).Some?
    ensures RevisionOf(env, original) == job.expected
    ensures job.NbtSave? ==> original.Some?
  {
  }

  // ---- what each outcome means -------------------------------------------------------------------------

  /** Only a rename changes a file that is not a backup or temporary one: the file of a save, and an NBT
      save whose rename worked is a success. So a failed NBT save leaves its file as it was. */
  lemma OnlySuccessWrites(env: Env, init: map<string, Content>, d: Disk, step: Step, path: string)
    requires Inv(env, init, d) && Enabled(d, step) && path !in Next(env, d, step).scratch
    ensures Read(Next(env, d, step), path) == Read(d, path)
         || (step.Commit? && step.renamed && d.jobs[step.id].path == path
             && (d.jobs[step.id].TextSave? || Next(env, d, step).phases[step.id] == Finished(true)))
  {
    hide Prepared, Linked, ContentAfter;
    if step.Commit? {
      assert PhaseOk(env, d, step.id);
    }
  }

  /** With no other writers the re-check never fails; and a successful NBT save has beside it a backup
      holding exactly the bytes with the expected revision, which it replaced. */
  lemma SuccessIsBackedUp(env: Env, init: map<string, Content>, d: Disk, id: nat)
    requires Inv(env, init, d) && Enabled(d, Commit(id, true, true)) && d.phases[id].Staged?
    ensures var d' := Next(env, d, Commit(id, true, true));
      d'.phases[id] == Finished(true)
      && Read(d', d.phases[id].backup) == Read(d, d.jobs[id].path)
      && Read(d', d.phases[id].backup).Some?
      && env.revision(Read(d', d.phases[id].backup).value) == d.jobs[id].expected
      && Read(d', d.jobs[id].path) == Some(d.phases[id].data)
  {
    assert PhaseOk(env, d, id);
  }

  /** Reading the file after a successful NBT save gives the document that was saved, its numbers in
      canonical text and the file's compression kept, unless it starts like a zlib stream. */
  lemma SavedDocumentReadsBack(env: Env, job: Job, original: Option<Content>)
    requires InversePair(env.packer) && job.NbtSave? && Prepared(env, job, original).Some?
    ensures var compression := DecodeSpec(env.floats, env.packer, original.value).value.compression;
      ValidString(job.document.root.name)
      && (DecodeSpec(env.floats, env.packer, Prepared(env, job, original).value)
            == Some(Document(compression, Canon(env.floats, job.document.root)))
          <==> !(compression == Plain && LooksLikeZlib(job.document.root)))
  {
    hide DecodeSpec, EncodeSpec, Canon, LooksLikeZlib, ValidString;
    var compression := DecodeSpec(env.floats, env.packer, original.value).value.compression;
    EncodeThenDecode(env.floats, env.packer, Document(compression, job.document.root));
  }

  // ---- runs ------------------------------------------------------------------------------------------------

  ghost predicate IsRun(env: Env, d: Disk, steps: seq<Step>)
    decreases |steps|
  {
    steps != [] ==> Enabled(d, steps[0]) && IsRun(env, Next(env, d, steps[0]), steps[1..])
  }

  function After(env: Env, d: Disk, steps: seq<Step>): Disk
    requires IsRun(env, d, steps)
    decreases |steps|
  {
    if steps == [] then d else After(env, Next(env, d, steps[0]), steps[1..])
  }

  lemma {:induction false} RunKeepsInv(env: Env, init: map<string, Content>, d: Disk, steps: seq<Step>)
    requires Inv(env, init, d) && IsRun(env, d, steps)
    ensures Inv(env, init, After(env, d, steps))
    decreases |steps|
  {
    hide Inv, Next, Enabled;
    if steps != [] {
      StepKeepsInv(env, init, d, steps[0]);
      RunKeepsInv(env, init, Next(env, d, steps[0]), steps[1..]);
    }
  }

  function Quiet(files: map<string, Content>): Disk {
    Disk(files, None, map[], map[], [], {})
  }

  /** No update is lost: in every interleaving the successful saves form a chain. Each one replaced
      exactly the bytes with the revision its caller expected, namely what the saves before it had left
      in that file; and what is in the file now is what the last of them wrote. Every job that reported
      success is exactly one link, and an NBT save that did not is none. And however much is saved after
      it, what an NBT save replaced is still in its backup. */
  lemma SavesFormAChain(env: Env, files: map<string, Content>, steps: seq<Step>)
    requires IsRun(env, Quiet(files), steps)
    ensures var d := After(env, Quiet(files), steps);
      (forall k :: 0 <= k < |d.saves| ==> Linked(env, files, d.saves, k))
      && (forall path :: path !in d.scratch ==> Read(d, path) == ContentAfter(files, d.saves, path))
      && HistoryOk(d)
      && forall k :: 0 <= k < |d.saves| && d.saves[k].job.NbtSave? ==> BackupHolds(d, k)
  {
    hide Next, Enabled, Linked, HistoryOk;
    QuietIsOk(env, files);
    RunKeepsInv(env, files, Quiet(files), steps);
  }

  lemma QuietIsOk(env: Env, files: map<string, Content>)
    ensures Inv(env, files, Quiet(files))
  {
  }

  /** A file keeps what a save wrote until the next save to it. */
  lemma {:induction false} ContentBetween(init: map<string, Content>, saves: seq<Save>, k: nat, m: nat)
    requires k < m <= |saves|
    requires forall j :: k < j < m ==> saves[j].job.path != saves[k].job.path
    ensures ContentAfter(init, saves[..m], saves[k].job.path) == Some(saves[k].result)
  {
    if m > k + 1 {
      ContentBetween(init, saves, k, m - 1);
      assert saves[..m][..m - 1] == saves[..m - 1];
    }
  }

  /** Two callers who read the same bytes of a file cannot both replace it one after the other, whatever
      is saved to other files in between: the second finds the revision of the first one's result instead,
      unless that result is the very same bytes. */
  lemma SecondOfTwoMustReload(env: Env, init: map<string, Content>, saves: seq<Save>, k: nat, m: nat)
    requires CollisionFree(env) && k < m < |saves|
    requires Linked(env, init, saves, k) && Linked(env, init, saves, m)
    requires saves[k].job.path == saves[m].job.path && saves[k].job.expected == saves[m].job.expected
    requires forall j :: k < j < m ==> saves[j].job.path != saves[k].job.path
    ensures Some(saves[k].result) == saves[k].base
  {
    hide Prepared;
    ContentBetween(init, saves, k, m);
  }
}
