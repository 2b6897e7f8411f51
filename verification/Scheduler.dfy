/**
  Claiming scheduled tasks (internal/schedules/scheduler.go and store.go): any number of panel
  processes tick over one table while users edit it. Each SQL statement is one step; what a process
  does while it holds its own mutex is one step too. Times are whole seconds, as `stamp` stores them.

  A cron schedule's next run after `now` is any later whole second, and every edit writes a version
  (updated_at, in nanoseconds) that no row has had before.
 */
module Scheduler {
  import opened Options

  /** A row, as far as claiming reads it; `due` is None where next_run_at is empty. */
  datatype Row = Row(enabled: bool, due: Option<int>, version: nat)

  /** What a tick read of a row, and what a claim compares. */
  datatype Key = Key(id: nat, due: int, version: nat)

  /** A claim that succeeded: by which process, in a startup tick or an ordinary one, and whether the task
      was running there already. */
  datatype Claim = Claim(process: nat, key: Key, startup: bool, busy: bool)

  /** One panel process: its tick in progress, the task it has claimed but not yet started, its
      `running` map, and its worker goroutines. */
  datatype Process = Process(
    todo: seq<Key>,
    now: int,
    startup: bool,
    starting: Option<nat>,
    running: set<nat>,
    workers: multiset<nat>)

  /** `used` and `claims` are history: the versions ever written, and the claims that succeeded. */
  datatype World = World(
    rows: map<nat, Row>,
    processes: map<nat, Process>,
    used: set<nat>,
    claims: seq<Claim>)

  datatype Step =
    | Write(id: nat, row: Row)                        // Create, Update and SetEnabled
    | Delete(id: nat)
    | Start(process: nat)
    | Tick(process: nat, now: int, startup: bool, due: seq<Key>)
    | Pass(process: nat)                              // no schedule, no next run, or a failed statement
    | ClaimNext(process: nat, next: int)
    | Launch(process: nat, recorded: bool)
    | Finish(process: nat, id: nat)
    | Crash(process: nat)                             // or Stop, once its workers are done

  predicate IsDue(row: Row, now: int) {
    row.enabled && row.due.Some? && row.due.value <= now
  }

  /** The query of a tick: every due row, once, as it is. */
  predicate IsDueList(rows: map<nat, Row>, now: int, due: seq<Key>) {
    && (forall i :: 0 <= i < |due| ==>
          due[i].id in rows && IsDue(rows[due[i].id], now)
          && rows[due[i].id].due == Some(due[i].due) && rows[due[i].id].version == due[i].version)
    && (forall i, j :: 0 <= i < j < |due| ==> due[i].id != due[j].id)
    && (forall id :: id in rows && IsDue(rows[id], now) ==> exists i :: 0 <= i < |due| && due[i].id == id)
  }

  predicate Enabled(w: World, step: Step) {
    match step
    case Write(_, row) => row.version !in w.used
    case Delete(id) => id in w.rows
    case Start(p) => p !in w.processes
    case Tick(p, now, _, due) => p in w.processes && w.processes[p].todo == [] && w.processes[p].starting == None
                                 && IsDueList(w.rows, now, due)
    case Pass(p) => p in w.processes && w.processes[p].todo != [] && w.processes[p].starting == None
    case ClaimNext(p, next) => p in w.processes && w.processes[p].todo != [] && w.processes[p].starting == None
                               && next > w.processes[p].now
    case Launch(p, _) => p in w.processes && w.processes[p].starting.Some?
    case Finish(p, id) => p in w.processes && id in w.processes[p].workers
    case Crash(p) => p in w.processes
  }

  /** UPDATE … WHERE id=? AND enabled=1 AND next_run_at=? AND updated_at=? finds its row. */
  predicate Matches(rows: map<nat, Row>, key: Key) {
    key.id in rows && rows[key.id] == Row(true, Some(key.due), key.version)
  }

  function SetProcess(w: World, p: nat, process: Process): World {
    w.(processes := w.processes[p := process])
  }

  function Next(w: World, step: Step): World
    requires Enabled(w, step)
  {
    match step
    case Write(id, row) => w.(rows := w.rows[id := row], used := w.used + {row.version})
    case Delete(id) => w.(rows := w.rows - {id})
    case Start(p) => SetProcess(w, p, Process([], 0, false, None, {}, multiset{}))
    case Tick(p, now, startup, due) =>
      SetProcess(w, p, w.processes[p].(todo := due, now := now, startup := startup))
    case Pass(p) => SetProcess(w, p, w.processes[p].(todo := w.processes[p].todo[1..]))
    case ClaimNext(p, next) =>
      var process := w.processes[p];
      var key := process.todo[0];
      var rest := process.(todo := process.todo[1..]);
      if !Matches(w.rows, key) then SetProcess(w, p, rest)
      else
        var busy := key.id in process.running;
        var process' := if busy || process.startup then rest
                        else rest.(starting := Some(key.id), running := rest.running + {key.id});
        SetProcess(w, p, process').(rows := w.rows[key.id := w.rows[key.id].(due := Some(next))],
                                    claims := w.claims + [Claim(p, key, process.startup, busy)])
    case Launch(p, recorded) =>
      var process := w.processes[p];
      var id := process.starting.value;
      SetProcess(w, p,
                 if recorded then process.(starting := None, workers := process.workers + multiset{id})
                 else process.(starting := None, running := process.running - {id}))
    case Finish(p, id) =>
      var process := w.processes[p];
      SetProcess(w, p, process.(running := process.running - {id}, workers := process.workers - multiset{id}))
    case Crash(p) => w.(processes := w.processes - {p})
  }

  // ---- the invariant -----------------------------------------------------------------------------------

  /** A claimed due time lies in the past of its row version. */
  ghost predicate Behind(w: World, key: Key) {
    key.version in w.used
    && (key.id in w.rows && w.rows[key.id].version == key.version ==>
          w.rows[key.id].due.Some? ==> w.rows[key.id].due.value > key.due)
  }

  /** `running` is exactly the task being started and the workers, each once. */
  ghost predicate Accounted(process: Process) {
    forall id: nat ::
      process.workers[id] + (if process.starting == Some(id) then 1 else 0)
      == (if id in process.running then 1 else 0)
  }

  /** What a tick read was due at its time. */
  ghost predicate WasDue(process: Process) {
    forall i :: 0 <= i < |process.todo| ==> process.todo[i].due <= process.now
  }

  /** This process claimed the task in an ordinary tick, when it was not running there. */
  ghost predicate ClaimedToRun(claims: seq<Claim>, p: nat, id: nat) {
    exists i :: 0 <= i < |claims|
      && claims[i].process == p && claims[i].key.id == id && !claims[i].startup && !claims[i].busy
  }

  /** What runs in a process was claimed there to run, and in a startup tick nothing is being started. */
  ghost predicate Started(w: World, p: nat)
    requires p in w.processes
  {
    && (forall id :: id in w.processes[p].running ==> ClaimedToRun(w.claims, p, id))
    && (w.processes[p].startup ==> w.processes[p].starting == None)
  }

  /** Of two claims of one row version, the later one is of a later due time. */
  predicate Advances(k: Key, l: Key) {
    k.id == l.id && k.version == l.version ==> k.due < l.due
  }

  ghost predicate Inv(w: World) {
    && (forall id :: id in w.rows ==> w.rows[id].version in w.used)
    && (forall i :: 0 <= i < |w.claims| ==> Behind(w, w.claims[i].key))
    && (forall i, j :: 0 <= i < j < |w.claims| ==> Advances(w.claims[i].key, w.claims[j].key))
    && (forall p :: p in w.processes ==> Accounted(w.processes[p]) && WasDue(w.processes[p]) && Started(w, p))
  }

  // ---- every step ------------------------------------------------------------------------------------------

  lemma WriteKeepsInv(w: World, step: Step)
    requires Inv(w) && Enabled(w, step) && (step.Write? || step.Delete?)
    ensures Inv(Next(w, step))
  {
    var w' := Next(w, step);
    forall i | 0 <= i < |w'.claims| ensures Behind(w', w'.claims[i].key) {
      assert Behind(w, w.claims[i].key);
    }
  }

  /** A step inside one process that touches no row. */
  predicate IsLocal(step: Step) {
    step.Start? || step.Tick? || step.Pass? || step.Launch? || step.Finish? || step.Crash?
  }

  lemma LocalKeepsInv(w: World, step: Step)
    requires Inv(w) && Enabled(w, step) && IsLocal(step)
    ensures Inv(Next(w, step))
  {
    hide Accounted, WasDue, Advances;
    var w' := Next(w, step);
    assert w'.rows == w.rows && w'.claims == w.claims && w'.used == w.used;
    forall i | 0 <= i < |w'.claims| ensures Behind(w', w'.claims[i].key) {
      assert Behind(w, w.claims[i].key);
    }
    forall p | p in w'.processes ensures Accounted(w'.processes[p]) && WasDue(w'.processes[p]) && Started(w', p) {
      if p == step.process {
        OwnProcess(w, step);
        OwnStarted(w, step);
      } else {
        assert Started(w, p);
      }
    }
  }

  lemma OwnProcess(w: World, step: Step)
    requires Inv(w) && Enabled(w, step) && IsLocal(step) && !step.Crash?
    ensures Accounted(Next(w, step).processes[step.process]) && WasDue(Next(w, step).processes[step.process])
  {
    hide Behind, Advances, Started;
    if !step.Start? {
      var before, after := w.processes[step.process], Next(w, step).processes[step.process];
      assert Accounted(before) && WasDue(before);
      if step.Finish? {
        assert before.workers[step.id] == 1 && after.workers[step.id] == 0;
      }
    }
  }

  lemma OwnStarted(w: World, step: Step)
    requires Inv(w) && Enabled(w, step) && IsLocal(step) && !step.Crash?
    ensures Started(Next(w, step), step.process)
  {
    hide Behind, Advances, Accounted, WasDue, ClaimedToRun;
    if !step.Start? {
      assert Started(w, step.process);
    }
  }

  lemma ClaimKeepsInv(w: World, step: Step)
    requires Inv(w) && Enabled(w, step) && step.ClaimNext?
    ensures Inv(Next(w, step))
  {
    hide Started;
    var w' := Next(w, step);
    var before, after := w.processes[step.process], w'.processes[step.process];
    var key := before.todo[0];
    assert Accounted(before) && WasDue(before);
    assert Accounted(after) && WasDue(after);
    forall p | p in w'.processes ensures Started(w', p) {
      ClaimKeepsStarted(w, step, p);
    }
    if Matches(w.rows, key) {
      forall i | 0 <= i < |w.claims| ensures Advances(w.claims[i].key, key) && Behind(w', w.claims[i].key) {
        assert Behind(w, w.claims[i].key);
      }
      assert Behind(w', key);
    } else {
      forall i | 0 <= i < |w.claims| ensures Behind(w', w.claims[i].key) {
        assert Behind(w, w.claims[i].key);
      }
    }
  }

  lemma ClaimKeepsStarted(w: World, step: Step, p: nat)
    requires Inv(w) && Enabled(w, step) && step.ClaimNext? && p in Next(w, step).processes
    ensures Started(Next(w, step), p)
  {
    hide Behind, Advances, Accounted, WasDue;
    var w' := Next(w, step);
    assert Started(w, p);
    forall id | id in w'.processes[p].running ensures ClaimedToRun(w'.claims, p, id) {
      if id in w.processes[p].running {
        var i :| 0 <= i < |w.claims|
          && w.claims[i].process == p && w.claims[i].key.id == id && !w.claims[i].startup && !w.claims[i].busy;
        assert w'.claims[i] == w.claims[i];
      } else {
        assert w'.claims[|w.claims|].key.id == id;
      }
    }
  }

  lemma StepKeepsInv(w: World, step: Step)
    requires Inv(w) && Enabled(w, step)
    ensures Inv(Next(w, step))
  {
    hide Inv;
    match step
    case Write(_, _) => WriteKeepsInv(w, step);
    case Delete(_) => WriteKeepsInv(w, step);
    case ClaimNext(_, _) => ClaimKeepsInv(w, step);
    case _ => LocalKeepsInv(w, step);
  }

  /** Between edits a row's next run only moves forward, and only by being claimed. */
  lemma NextRunOnlyAdvances(w: World, step: Step, id: nat)
    requires Inv(w) && Enabled(w, step) && id in w.rows
    requires (step.Write? || step.Delete?) ==> step.id != id
    ensures var w' := Next(w, step);
      id in w'.rows && w'.rows[id].version == w.rows[id].version && w'.rows[id].enabled == w.rows[id].enabled
      && (w'.rows[id] == w.rows[id]
          || (step.ClaimNext? && w.rows[id].due.Some? && w'.rows[id].due.Some?
              && w'.rows[id].due.value > w.rows[id].due.value
              && |w'.claims| == |w.claims| + 1
              && w'.claims[|w.claims|].key == Key(id, w.rows[id].due.value, w.rows[id].version)))
  {
    if step.ClaimNext? {
      assert WasDue(w.processes[step.process]);
    }
  }

  // ---- runs ------------------------------------------------------------------------------------------------

  ghost predicate IsRun(w: World, steps: seq<Step>)
    decreases |steps|
  {
    steps != [] ==> Enabled(w, steps[0]) && IsRun(Next(w, steps[0]), steps[1..])
  }

  function After(w: World, steps: seq<Step>): World
    requires IsRun(w, steps)
    decreases |steps|
  {
    if steps == [] then w else After(Next(w, steps[0]), steps[1..])
  }

  /** A table with nothing claimed yet and no process running. */
  ghost predicate Fresh(w: World) {
    w.processes == map[] && w.claims == [] && forall id :: id in w.rows ==> w.rows[id].version in w.used
  }

  lemma {:induction false} RunKeepsInv(w: World, steps: seq<Step>)
    requires Inv(w) && IsRun(w, steps)
    ensures Inv(After(w, steps))
    decreases |steps|
  {
    hide Inv, Next, Enabled;
    if steps != [] {
      StepKeepsInv(w, steps[0]);
      RunKeepsInv(Next(w, steps[0]), steps[1..]);
    }
  }

  /** A row version between two states: the next run is there as before, and has not gone back. */
  predicate NotBack(before: Row, after: Row) {
    && after.version == before.version && after.enabled == before.enabled
    && after.due.Some? == before.due.Some?
    && (before.due.Some? ==> after.due.value >= before.due.value)
  }

  /** Over any stretch of a run without an edit of the row, whatever the processes do, its next run never
      goes back. */
  lemma {:induction false} NextRunNeverGoesBack(w: World, steps: seq<Step>, id: nat)
    requires Inv(w) && IsRun(w, steps) && id in w.rows
    requires forall i :: 0 <= i < |steps| && (steps[i].Write? || steps[i].Delete?) ==> steps[i].id != id
    ensures id in After(w, steps).rows && NotBack(w.rows[id], After(w, steps).rows[id])
    decreases |steps|
  {
    hide Inv, Next, Enabled;
    if steps != [] {
      StepKeepsInv(w, steps[0]);
      NextRunOnlyAdvances(w, steps[0], id);
      NextRunNeverGoesBack(Next(w, steps[0]), steps[1..], id);
    }
  }

  /** Successive claims of one row version are of strictly later and later due times. */
  lemma ClaimsAdvance(w: World, steps: seq<Step>)
    requires Fresh(w) && IsRun(w, steps)
    ensures var claims := After(w, steps).claims;
      forall i, j :: 0 <= i < j < |claims| ==> Advances(claims[i].key, claims[j].key)
  {
    hide Next, Enabled;
    RunKeepsInv(w, steps);
  }

  /** Over any interleaving of any number of processes with edits, restarts and crashes, no row version
      is claimed, let alone dispatched, twice for the same due time. */
  lemma ClaimedAtMostOnce(w: World, steps: seq<Step>)
    requires Fresh(w) && IsRun(w, steps)
    ensures var claims := After(w, steps).claims;
      forall i, j :: 0 <= i < j < |claims| ==> claims[i].key != claims[j].key
  {
    hide Next, Enabled;
    RunKeepsInv(w, steps);
  }

  /** Within one process a task never has two workers, nor a worker and another one starting. */
  lemma OneWorkerPerTask(w: World, steps: seq<Step>, p: nat, id: nat)
    requires Fresh(w) && IsRun(w, steps) && p in After(w, steps).processes
    ensures var process := After(w, steps).processes[p];
      process.workers[id] <= 1
      && (process.starting == Some(id) ==> process.workers[id] == 0)
      && (id in process.workers ==> id in process.running)
  {
    hide Next, Enabled;
    RunKeepsInv(w, steps);
    assert Accounted(After(w, steps).processes[p]);
  }

  // ---- who is started ----------------------------------------------------------------------------------------

  /** A tick works through every enabled row that is due, as it is, and through nothing else. */
  lemma TickReadsWhatIsDue(w: World, p: nat, now: int, startup: bool, due: seq<Key>)
    requires Enabled(w, Tick(p, now, startup, due))
    ensures var process := Next(w, Tick(p, now, startup, due)).processes[p];
            && process.now == now && process.startup == startup
            && forall id :: (exists i :: 0 <= i < |process.todo| && process.todo[i].id == id)
                 <==> id in w.rows && w.rows[id].enabled && w.rows[id].due.Some? && w.rows[id].due.value <= now
    ensures forall key :: key in Next(w, Tick(p, now, startup, due)).processes[p].todo ==>
              w.rows[key.id] == Row(true, Some(key.due), key.version)
  {
  }

  /** What a claim does. It succeeds exactly if the row is still enabled and as the tick read it; then, and
      only then, the row's next run moves on. It marks the task running and goes on to start it exactly if
      it succeeds, in an ordinary tick, while the task is not running in this process. */
  lemma ClaimMeans(w: World, p: nat, next: int)
    requires p in w.processes && w.processes[p].todo != [] && w.processes[p].starting == None
    requires next > w.processes[p].now
    ensures Enabled(w, ClaimNext(p, next))
    ensures var w' := Next(w, ClaimNext(p, next));
            var before, after := w.processes[p], w'.processes[p];
            var key := before.todo[0];
            var found := key.id in w.rows && w.rows[key.id].enabled
                         && w.rows[key.id].due == Some(key.due) && w.rows[key.id].version == key.version;
            var starts := found && !before.startup && key.id !in before.running;
            && w'.rows == (if found then w.rows[key.id := Row(true, Some(next), key.version)] else w.rows)
            && after.starting == (if starts then Some(key.id) else None)
            && after.running == (if starts then before.running + {key.id} else before.running)
            && after.workers == before.workers && after.todo == before.todo[1..]
            && w'.claims == (if found then w.claims + [Claim(p, key, before.startup, key.id in before.running)]
                             else w.claims)
            && forall q :: q != p ==>
                 (q in w'.processes <==> q in w.processes)
                 && (q in w.processes ==> w'.processes[q] == w.processes[q])
  {
  }

  predicate IsOf(step: Step, p: nat) {
    !step.Write? && !step.Delete? && step.process == p
  }

  /** Nothing but its own steps changes a process. */
  lemma {:induction false} OthersLeaveIt(w: World, steps: seq<Step>, p: nat)
    requires IsRun(w, steps) && p in w.processes
    requires forall i :: 0 <= i < |steps| ==> !IsOf(steps[i], p)
    ensures p in After(w, steps).processes && After(w, steps).processes[p] == w.processes[p]
    decreases |steps|
  {
    hide Enabled;
    if steps != [] {
      var rest := steps[1..];
      assert forall i :: 0 <= i < |rest| ==> rest[i] == steps[i + 1];
      OthersLeaveIt(Next(w, steps[0]), rest, p);
    }
  }

  /** Whatever others do meanwhile, a task that was claimed while idle in an ordinary tick gets exactly one
      worker if its start can be recorded, and is free to be claimed again if it cannot. */
  lemma ClaimedTaskRuns(w: World, p: nat, next: int, others: seq<Step>, recorded: bool)
    requires Inv(w) && Enabled(w, ClaimNext(p, next))
    requires var process := w.processes[p]; var key := process.todo[0];
             && !process.startup && key.id !in process.running
             && key.id in w.rows && w.rows[key.id] == Row(true, Some(key.due), key.version)
    requires IsRun(Next(w, ClaimNext(p, next)), others) && forall i :: 0 <= i < |others| ==> !IsOf(others[i], p)
    ensures var id, waiting := w.processes[p].todo[0].id, After(Next(w, ClaimNext(p, next)), others);
            && Enabled(waiting, Launch(p, recorded))
            && var process := Next(waiting, Launch(p, recorded)).processes[p];
               && process.starting == None
               && process.workers == w.processes[p].workers + (if recorded then multiset{id} else multiset{})
               && process.workers[id] == (if recorded then 1 else 0)
               && (id in process.running <==> recorded)
  {
    hide Started, WasDue, Behind;
    var claimed := Next(w, ClaimNext(p, next));
    OthersLeaveIt(claimed, others, p);
    assert Accounted(w.processes[p]);
  }

  /** A process since its last startup tick, or not ticking at all. */
  predicate Idling(process: Process, workers: multiset<nat>) {
    (process.startup || process.todo == []) && process.starting == None && process.workers <= workers
  }

  lemma IdlingStep(w: World, step: Step, p: nat, workers: multiset<nat>)
    requires Enabled(w, step) && !(step.Tick? && step.process == p)
    requires p in w.processes ==> Idling(w.processes[p], workers)
    ensures p in Next(w, step).processes ==> Idling(Next(w, step).processes[p], workers)
  {
  }

  /** A startup tick starts nothing: until the process ticks again, no task is being started there and every
      worker is one from before, across a crash and a restart too. */
  lemma {:induction false} StartupStartsNothing(w: World, steps: seq<Step>, p: nat, workers: multiset<nat>)
    requires IsRun(w, steps) && (p in w.processes ==> Idling(w.processes[p], workers))
    requires forall i :: 0 <= i < |steps| ==> !(steps[i].Tick? && steps[i].process == p)
    ensures p in After(w, steps).processes ==>
              After(w, steps).processes[p].starting == None && After(w, steps).processes[p].workers <= workers
    decreases |steps|
  {
    hide Enabled, Next;
    if steps != [] {
      var rest := steps[1..];
      assert forall i :: 0 <= i < |rest| ==> rest[i] == steps[i + 1];
      IdlingStep(w, steps[0], p, workers);
      StartupStartsNothing(Next(w, steps[0]), rest, p, workers);
    }
  }

  lemma StartupTickStartsNothing(w: World, p: nat, now: int, due: seq<Key>, steps: seq<Step>)
    requires Enabled(w, Tick(p, now, true, due)) && IsRun(Next(w, Tick(p, now, true, due)), steps)
    requires forall i :: 0 <= i < |steps| ==> !(steps[i].Tick? && steps[i].process == p)
    ensures var after := After(Next(w, Tick(p, now, true, due)), steps);
            p in after.processes ==>
              after.processes[p].starting == None && after.processes[p].workers <= w.processes[p].workers
  {
    StartupStartsNothing(Next(w, Tick(p, now, true, due)), steps, p, w.processes[p].workers);
  }

  /** In every reachable state, every task that is being started or has a worker was claimed by that
      process, in an ordinary tick, when it was not running there. */
  lemma OnlyClaimedTasksRun(w: World, steps: seq<Step>, p: nat, id: nat)
    requires Fresh(w) && IsRun(w, steps) && p in After(w, steps).processes
    requires var process := After(w, steps).processes[p]; process.starting == Some(id) || id in process.workers
    ensures ClaimedToRun(After(w, steps).claims, p, id)
  {
    hide Next, Enabled, ClaimedToRun;
    RunKeepsInv(w, steps);
    assert Started(After(w, steps), p) && Accounted(After(w, steps).processes[p]);
  }

  /** Any edit with a new version is possible at any time, and so is a deletion; each changes its row only. */
  lemma EditsArePossible(w: World, id: nat, row: Row)
    ensures row.version !in w.used ==>
              Enabled(w, Write(id, row))
              && Next(w, Write(id, row)) == w.(rows := w.rows[id := row], used := w.used + {row.version})
    ensures id in w.rows ==>
              Enabled(w, Delete(id)) && Next(w, Delete(id)) == w.(rows := w.rows - {id})
  {
  }

  /** Nothing stays running for good: in every reachable state a task in `running` is being started, or has
      a worker that may finish, after which it can be claimed again. */
  lemma RunningCanEnd(w: World, p: nat, id: nat)
    requires Inv(w) && p in w.processes && id in w.processes[p].running
    ensures if w.processes[p].starting == Some(id) then Enabled(w, Launch(p, true)) && Enabled(w, Launch(p, false))
            else Enabled(w, Finish(p, id))
                 && id !in Next(w, Finish(p, id)).processes[p].running
                 && id !in Next(w, Finish(p, id)).processes[p].workers
  {
    assert Accounted(w.processes[p]);
  }

  /** The rows of some tasks, each once. */
  lemma KeysOf(rows: map<nat, Row>, ids: set<nat>) returns (due: seq<Key>)
    requires forall id :: id in ids ==> id in rows && rows[id].due.Some?
    ensures forall i :: 0 <= i < |due| ==> due[i].id in ids && rows[due[i].id].due == Some(due[i].due)
                                           && rows[due[i].id].version == due[i].version
    ensures forall i, j :: 0 <= i < j < |due| ==> due[i].id != due[j].id
    ensures forall id :: id in ids ==> exists i :: 0 <= i < |due| && due[i].id == id
  {
    due := [];
    if ids != {} {
      var id :| id in ids;
      var rest := KeysOf(rows, ids - {id});
      due := rest + [Key(id, rows[id].due.value, rows[id].version)];
      forall x | x in ids ensures exists i :: 0 <= i < |due| && due[i].id == x {
        if x == id {
          assert due[|rest|].id == x;
        } else {
          assert x in ids - {id};
          var i :| 0 <= i < |rest| && rest[i].id == x;
          assert due[i].id == x;
        }
      }
    }
  }

  /** A process that has nothing to do can tick at any time, whatever the table holds; one that has claims to
      make can pass over the next; a process can start when it is not running, and stop at any time. */
  lemma ProcessesCanGoOn(w: World, p: nat, now: int, startup: bool) returns (due: seq<Key>)
    ensures p !in w.processes ==>
              Enabled(w, Start(p)) && p in Next(w, Start(p)).processes
              && Next(w, Start(p)).processes[p] == Process([], 0, false, None, {}, multiset{})
    ensures p in w.processes ==> Enabled(w, Crash(p)) && p !in Next(w, Crash(p)).processes
    ensures p in w.processes && w.processes[p].starting == None ==>
              if w.processes[p].todo == [] then Enabled(w, Tick(p, now, startup, due))
              else Enabled(w, Pass(p)) && Next(w, Pass(p)).processes[p].todo == w.processes[p].todo[1..]
  {
    var ids := set id | id in w.rows && IsDue(w.rows[id], now);
    due := KeysOf(w.rows, ids);
    assert forall id :: id in w.rows && IsDue(w.rows[id], now) ==> id in ids;
    assert IsDueList(w.rows, now, due);
  }
}
