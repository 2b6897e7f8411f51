/**
  The lock in front of every backup operation (internal/backups/backups.go, lockOperation): one channel
  of capacity one per server, then one channel of capacity two for all servers. Each channel operation
  is one step, and any waiting operation may be cancelled instead.
 */
module OperationLock {
  import opened Sets

  const SLOTS: nat := 2

  datatype Phase =
    | WaitingForLock
    | WaitingForSlot      // holds the server's lock
    | Running             // holds both
    | Releasing           // has given back the slot, not yet the lock
    | Done
    | Cancelled

  datatype Operation = Operation(server: nat, phase: Phase)

  /** The operations so far, the servers whose lock channel is full, and the tokens in the slot channel. */
  datatype Locks = Locks(operations: map<nat, Operation>, locked: set<nat>, slots: nat)

  datatype Step =
    | Arrive(id: nat, server: nat)
    | TakeLock(id: nat)
    | TakeSlot(id: nat)
    | Cancel(id: nat)         // the context ends first: a held lock is given back
    | FreeSlot(id: nat)
    | FreeLock(id: nat)

  function At(l: Locks, id: nat, phase: Phase): Locks
    requires id in l.operations
  {
    l.(operations := l.operations[id := l.operations[id].(phase := phase)])
  }

  predicate Enabled(l: Locks, step: Step) {
    if step.Arrive? then step.id !in l.operations
    else
      step.id in l.operations
      && var op := l.operations[step.id];
         match step
         case TakeLock(_) => op.phase == WaitingForLock && op.server !in l.locked
         case TakeSlot(_) => op.phase == WaitingForSlot && l.slots < SLOTS
         case Cancel(_) => op.phase == WaitingForLock || op.phase == WaitingForSlot
         case FreeSlot(_) => op.phase == Running && l.slots > 0
         case FreeLock(_) => op.phase == Releasing && op.server in l.locked
  }

  function Next(l: Locks, step: Step): Locks
    requires Enabled(l, step)
  {
    match step
    case Arrive(id, server) => l.(operations := l.operations[id := Operation(server, WaitingForLock)])
    case TakeLock(id) => At(l, id, WaitingForSlot).(locked := l.locked + {l.operations[id].server})
    case TakeSlot(id) => At(l, id, Running).(slots := l.slots + 1)
    case Cancel(id) =>
      if l.operations[id].phase == WaitingForSlot
      then At(l, id, Cancelled).(locked := l.locked - {l.operations[id].server})
      else At(l, id, Cancelled)
    case FreeSlot(id) => At(l, id, Releasing).(slots := l.slots - 1)
    case FreeLock(id) => At(l, id, Done).(locked := l.locked - {l.operations[id].server})
  }

  predicate HoldsLock(op: Operation) {
    op.phase == WaitingForSlot || op.phase == Running || op.phase == Releasing
  }

  function RunningIds(l: Locks): set<nat> {
    set id | id in l.operations && l.operations[id].phase == Running
  }

  /** Past its lock means alone on its server; the lock channels hold exactly their holders' tokens. */
  ghost predicate LocksMatch(l: Locks) {
    && (forall a, b :: a in l.operations && b in l.operations && a != b
                       && HoldsLock(l.operations[a]) && HoldsLock(l.operations[b]) ==>
          l.operations[a].server != l.operations[b].server)
    && (forall id :: id in l.operations && HoldsLock(l.operations[id]) ==> l.operations[id].server in l.locked)
    && (forall s :: s in l.locked ==> Held(l, s))
  }

  ghost predicate Held(l: Locks, server: nat) {
    exists id :: id in l.operations && HoldsLock(l.operations[id]) && l.operations[id].server == server
  }

  ghost predicate Inv(l: Locks) {
    LocksMatch(l) && l.slots == |RunningIds(l)| && l.slots <= SLOTS
  }

  lemma StepKeepsInv(l: Locks, step: Step)
    requires Inv(l) && Enabled(l, step)
    ensures Inv(Next(l, step))
  {
    hide LocksMatch;
    RunningAfter(l, step);
    StepKeepsLocks(l, step);
  }

  lemma StepKeepsLocks(l: Locks, step: Step)
    requires LocksMatch(l) && Enabled(l, step)
    ensures LocksMatch(Next(l, step))
  {
    var l' := Next(l, step);
    forall s | s in l'.locked ensures Held(l', s) {
      if s in l.locked {
        var x :| x in l.operations && HoldsLock(l.operations[x]) && l.operations[x].server == s;
        assert x in l'.operations && HoldsLock(l'.operations[x]) && l'.operations[x].server == s;
      } else {
        assert HoldsLock(l'.operations[step.id]) && l'.operations[step.id].server == s;
      }
    }
  }

  lemma RunningAfter(l: Locks, step: Step)
    requires Enabled(l, step)
    ensures var before, after := RunningIds(l), RunningIds(Next(l, step));
      |after| == if step.TakeSlot? then |before| + 1 else if step.FreeSlot? then |before| - 1 else |before|
  {
    var before, after, id := RunningIds(l), RunningIds(Next(l, step)), step.id;
    if step.TakeSlot? {
      assert id !in before && after == before + {id};
    } else if step.FreeSlot? {
      assert id in before && after == before - {id};
    } else {
      assert after == before;
    }
  }

  /** A run: a sequence of steps each enabled where it is taken. */
  ghost predicate IsRun(l: Locks, steps: seq<Step>)
    decreases |steps|
  {
    steps != [] ==> Enabled(l, steps[0]) && IsRun(Next(l, steps[0]), steps[1..])
  }

  function After(l: Locks, steps: seq<Step>): Locks
    requires IsRun(l, steps)
    decreases |steps|
  {
    if steps == [] then l else After(Next(l, steps[0]), steps[1..])
  }

  const START: Locks := Locks(map[], {}, 0)

  lemma {:induction false} RunKeepsInv(l: Locks, steps: seq<Step>)
    requires Inv(l) && IsRun(l, steps)
    ensures Inv(After(l, steps))
    decreases |steps|
  {
    if steps != [] {
      StepKeepsInv(l, steps[0]);
      RunKeepsInv(Next(l, steps[0]), steps[1..]);
    }
  }

  /** In every reachable state: at most one operation per server is past its lock, at most two run at
      all, and the slot channel holds exactly as many tokens as operations run. */
  lemma MutualExclusion(steps: seq<Step>)
    requires IsRun(START, steps)
    ensures var l := After(START, steps);
      (forall a, b :: a in l.operations && b in l.operations && a != b
                      && HoldsLock(l.operations[a]) && HoldsLock(l.operations[b]) ==>
         l.operations[a].server != l.operations[b].server)
      && |RunningIds(l)| <= 2 && l.slots == |RunningIds(l)|
  {
    assert RunningIds(START) == {};
    RunKeepsInv(START, steps);
  }

  /** A waiting operation can be cancelled at any time, and that gives back what it holds: the lock is free
      again if it held it, and the slots are untouched. */
  lemma CancelGivesBack(l: Locks, id: nat)
    requires Inv(l) && id in l.operations
    requires l.operations[id].phase == WaitingForLock || l.operations[id].phase == WaitingForSlot
    ensures Enabled(l, Cancel(id))
    ensures var l' := Next(l, Cancel(id));
      l'.slots == l.slots && l'.operations[id].phase == Cancelled
      && (HoldsLock(l.operations[id]) ==> l'.locked == l.locked - {l.operations[id].server}
                                          && l.operations[id].server in l.locked)
      && (!HoldsLock(l.operations[id]) ==> l'.locked == l.locked)
      && (forall other :: other in l.operations && other != id && HoldsLock(l.operations[other]) ==>
            l.operations[other].server in l'.locked)
  {
  }

  /** While any operation waits, some step other than a cancellation or a new arrival can be taken:
      nothing deadlocks, whatever the other servers do. */
  lemma SomeStepIsEnabled(l: Locks, id: nat) returns (step: Step)
    requires Inv(l) && id in l.operations
    requires l.operations[id].phase == WaitingForLock || HoldsLock(l.operations[id])
    ensures Enabled(l, step) && !step.Cancel? && !step.Arrive?
    decreases if l.operations[id].phase == WaitingForLock then 1 else 0
  {
    var op := l.operations[id];
    if op.phase == Running {
      assert id in RunningIds(l);
      step := FreeSlot(id);
    } else if op.phase == Releasing {
      step := FreeLock(id);
    } else if op.phase == WaitingForSlot {
      if l.slots < SLOTS {
        step := TakeSlot(id);
      } else {
        var other :| other in RunningIds(l);
        step := FreeSlot(other);
      }
    } else if op.server !in l.locked {
      step := TakeLock(id);
    } else {
      assert Held(l, op.server);
      var holder :| holder in l.operations && HoldsLock(l.operations[holder])
                    && l.operations[holder].server == op.server;
      step := SomeStepIsEnabled(l, holder);
    }
  }

  // ---- progress ---------------------------------------------------------------------------------------------

  function Rank(phase: Phase): nat {
    match phase
    case WaitingForLock => 4
    case WaitingForSlot => 3
    case Running => 2
    case Releasing => 1
    case _ => 0
  }

  function AtLeast(l: Locks, k: nat): set<nat> {
    set id | id in l.operations && Rank(l.operations[id].phase) >= k
  }

  /** Steps still ahead of all operations together, at most. */
  function Work(l: Locks): nat {
    |AtLeast(l, 1)| + |AtLeast(l, 2)| + |AtLeast(l, 3)| + |AtLeast(l, 4)|
  }

  /** Every step but an arrival leaves strictly less to do. With SomeStepIsEnabled: once arrivals stop,
      every run ends, and it can only end with every operation done or cancelled. */
  lemma StepMakesProgress(l: Locks, step: Step)
    requires Enabled(l, step) && !step.Arrive?
    ensures Work(Next(l, step)) < Work(l)
  {
    var l' := Next(l, step);
    var k := Rank(l.operations[step.id].phase);
    Shrinks(AtLeast(l', 1), AtLeast(l, 1));
    Shrinks(AtLeast(l', 2), AtLeast(l, 2));
    Shrinks(AtLeast(l', 3), AtLeast(l, 3));
    Shrinks(AtLeast(l', 4), AtLeast(l, 4));
    assert step.id in AtLeast(l, k) && step.id !in AtLeast(l', k);
  }

  predicate Finished(l: Locks) {
    forall id :: id in l.operations ==> l.operations[id].phase == Done || l.operations[id].phase == Cancelled
  }

  lemma SomeoneIsCloser(l: Locks) returns (step: Step)
    requires Inv(l) && !Finished(l)
    ensures Enabled(l, step) && !step.Cancel? && !step.Arrive?
    ensures Inv(Next(l, step)) && Work(Next(l, step)) < Work(l)
  {
    hide Inv, Next, Work;
    var id :| id in l.operations && l.operations[id].phase != Done && l.operations[id].phase != Cancelled;
    step := SomeStepIsEnabled(l, id);
    StepMakesProgress(l, step);
    StepKeepsInv(l, step);
  }

  lemma StepThenRun(l: Locks, step: Step, rest: seq<Step>)
    requires Enabled(l, step) && IsRun(Next(l, step), rest)
    ensures IsRun(l, [step] + rest) && After(l, [step] + rest) == After(Next(l, step), rest)
  {
    hide Enabled, Next;
    assert ([step] + rest)[1..] == rest;
  }

  /** From any reachable state, with no further arrivals and no cancellation, a run of at most Work
      steps completes every operation. */
  lemma {:induction false} EveryoneFinishes(l: Locks) returns (steps: seq<Step>)
    requires Inv(l)
    ensures IsRun(l, steps) && |steps| <= Work(l) && Finished(After(l, steps))
    ensures forall i :: 0 <= i < |steps| ==> !steps[i].Cancel? && !steps[i].Arrive?
    decreases Work(l)
  {
    hide Inv, Enabled, Next, Work, Finished;
    if Finished(l) {
      steps := [];
    } else {
      var step := SomeoneIsCloser(l);
      var rest := EveryoneFinishes(Next(l, step));
      steps := [step] + rest;
      StepThenRun(l, step, rest);
    }
  }

  /** A new operation can be asked for at any time, and waits for its server's lock. */
  lemma ArrivalsWait(l: Locks, id: nat, server: nat)
    requires id !in l.operations
    ensures Enabled(l, Arrive(id, server))
    ensures Next(l, Arrive(id, server))
         == l.(operations := l.operations[id := Operation(server, WaitingForLock)])
  {
  }

  /** An operation is kept waiting only by others: for its lock exactly while another operation holds it on
      the same server, and for a slot exactly while two operations are running. */
  lemma BlockedOnlyByHolders(l: Locks, id: nat)
    requires Inv(l) && id in l.operations
    ensures l.operations[id].phase == WaitingForLock ==>
              (Enabled(l, TakeLock(id)) <==>
                 !exists other :: other in l.operations && other != id && HoldsLock(l.operations[other])
                                  && l.operations[other].server == l.operations[id].server)
    ensures l.operations[id].phase == WaitingForSlot ==> (Enabled(l, TakeSlot(id)) <==> |RunningIds(l)| < 2)
  {
    hide RunningIds;
    var op := l.operations[id];
    if op.phase == WaitingForLock && op.server in l.locked {
      assert Held(l, op.server);
    }
  }
}
