/**
  Upstream results shared for the length of one check (internal/checkcache/cache.go, Do): the first call
  for a name stores an open entry and fetches, the others wait for the entry's done channel or for their
  context. LoadOrStore, the close of the channel and the two arms of the select are one step each. A
  fetch may itself call Do (the version resolver's fetch goes through the proxy's).
 */
module CheckCache {
  import opened Options
  import opened Sets

  datatype Phase<V> = Starting | Fetching | Waiting | Returned(result: V) | Cancelled

  /** A call of Do for a name, made by the fetch of the call `parent`, if any. */
  datatype Call<V> = Call(name: string, parent: Option<nat>, phase: Phase<V>)

  /** An entry whose done channel is open, with the call that fetches for it, or closed. */
  datatype Entry<V> = Open(owner: nat) | Closed(result: V)

  /** One pass: its calls, its entries, and the history of fetches begun. */
  datatype Pass<V> = Pass(calls: map<nat, Call<V>>, entries: map<string, Entry<V>>, fetched: seq<string>)

  datatype Step<V> =
    | Begin(id: nat, name: string, parent: Option<nat>)
    | LoadOrStore(id: nat)
    | Close(id: nat, result: V)   // the fetch returns, with a value or an error
    | Wake(id: nat)
    | GiveUp(id: nat)             // the context ends first

  predicate Settled<V>(phase: Phase<V>) {
    phase.Returned? || phase.Cancelled?
  }

  /** A fetch returns only after the calls it made have returned. */
  ghost predicate ChildrenSettled<V>(p: Pass<V>, id: nat) {
    forall c :: c in p.calls && p.calls[c].parent == Some(id) ==> Settled(p.calls[c].phase)
  }

  ghost predicate Enabled<V>(p: Pass<V>, step: Step<V>) {
    match step
    case Begin(id, _, parent) =>
      id !in p.calls && (parent.Some? ==> parent.value in p.calls && p.calls[parent.value].phase.Fetching?)
    case LoadOrStore(id) => id in p.calls && p.calls[id].phase.Starting?
    case Close(id, _) => id in p.calls && p.calls[id].phase.Fetching? && ChildrenSettled(p, id)
    case Wake(id) =>
      id in p.calls && p.calls[id].phase.Waiting?
      && p.calls[id].name in p.entries && p.entries[p.calls[id].name].Closed?
    case GiveUp(id) => id in p.calls && p.calls[id].phase.Waiting?
  }

  function At<V>(p: Pass<V>, id: nat, phase: Phase<V>): Pass<V>
    requires id in p.calls
  {
    p.(calls := p.calls[id := p.calls[id].(phase := phase)])
  }

  function Next<V>(p: Pass<V>, step: Step<V>): Pass<V>
    requires Enabled(p, step)
  {
    match step
    case Begin(id, name, parent) => p.(calls := p.calls[id := Call(name, parent, Starting)])
    case LoadOrStore(id) =>
      var name := p.calls[id].name;
      if name in p.entries then At(p, id, Waiting)
      else At(p, id, Fetching).(entries := p.entries[name := Open(id)], fetched := p.fetched + [name])
    case Close(id, result) =>
      At(p, id, Returned(result)).(entries := p.entries[p.calls[id].name := Closed(result)])
    case Wake(id) => At(p, id, Returned(p.entries[p.calls[id].name].result))
    case GiveUp(id) => At(p, id, Cancelled)
  }

  /** What a call in each phase means for its entry. */
  ghost predicate CallOk<V>(p: Pass<V>, id: nat)
    requires id in p.calls
  {
    var c := p.calls[id];
    match c.phase
    case Starting => true
    case Fetching => c.name in p.entries && p.entries[c.name] == Open(id)
    case Waiting => c.name in p.entries
    case Returned(result) => c.name in p.entries && p.entries[c.name] == Closed(result)
    case Cancelled => c.name in p.entries
  }

  ghost predicate Inv<V(!new)>(p: Pass<V>) {
    && (forall id :: id in p.calls ==> CallOk(p, id))
    && (forall name :: name in p.entries && p.entries[name].Open? ==>
          p.entries[name].owner in p.calls && p.calls[p.entries[name].owner].name == name
          && p.calls[p.entries[name].owner].phase.Fetching?)
    && (forall name :: name in p.entries <==> name in p.fetched)
    && (forall i, j :: 0 <= i < j < |p.fetched| ==> p.fetched[i] != p.fetched[j])
  }

  /** Fetches only call Do for names of a lower rank than their own. */
  ghost predicate Layered<V>(p: Pass<V>, rank: string -> nat) {
    forall id :: id in p.calls && p.calls[id].parent.Some? ==>
      p.calls[id].parent.value in p.calls && rank(p.calls[id].name) < rank(p.calls[p.calls[id].parent.value].name)
  }

  lemma StepKeepsInv<V(!new)>(p: Pass<V>, step: Step<V>)
    requires Inv(p) && Enabled(p, step)
    ensures Inv(Next(p, step))
  {
    var p' := Next(p, step);
    forall id | id in p'.calls ensures CallOk(p', id) {
      if id in p.calls {
        assert CallOk(p, id);
      }
    }
    if step.Close? {
      assert CallOk(p, step.id);
    }
  }

  // ---- runs ------------------------------------------------------------------------------------------------

  ghost predicate IsRun<V>(p: Pass<V>, steps: seq<Step<V>>)
    decreases |steps|
  {
    steps != [] ==> Enabled(p, steps[0]) && IsRun(Next(p, steps[0]), steps[1..])
  }

  function After<V>(p: Pass<V>, steps: seq<Step<V>>): Pass<V>
    requires IsRun(p, steps)
    decreases |steps|
  {
    if steps == [] then p else After(Next(p, steps[0]), steps[1..])
  }

  function NewPass<V>(): Pass<V> {
    Pass(map[], map[], [])
  }

  lemma {:induction false} RunKeepsInv<V(!new)>(p: Pass<V>, steps: seq<Step<V>>)
    requires Inv(p) && IsRun(p, steps)
    ensures Inv(After(p, steps))
    decreases |steps|
  {
    hide Inv, Enabled, Next;
    if steps != [] {
      StepKeepsInv(p, steps[0]);
      RunKeepsInv(Next(p, steps[0]), steps[1..]);
    }
  }

  /** Over any run of a pass, whatever calls come and give up: each name is fetched at most once, and all
      calls for it that return, return what that one fetch gave, error or not. */
  lemma FetchedOnceAndShared<V(!new)>(steps: seq<Step<V>>)
    requires IsRun(NewPass(), steps)
    ensures var p := After(NewPass(), steps);
      (forall i, j :: 0 <= i < j < |p.fetched| ==> p.fetched[i] != p.fetched[j])
      && (forall a, b :: a in p.calls && b in p.calls && p.calls[a].name == p.calls[b].name
                         && p.calls[a].phase.Returned? && p.calls[b].phase.Returned? ==>
            p.calls[a].phase == p.calls[b].phase)
      && (forall a :: a in p.calls && p.calls[a].phase.Returned? ==> p.calls[a].name in p.fetched)
  {
    hide Enabled, Next, IsRun, After;
    NewPassIsOk<V>();
    RunKeepsInv(NewPass(), steps);
    var p := After(NewPass(), steps);
    forall a | a in p.calls ensures CallOk(p, a) {
    }
  }

  lemma NewPassIsOk<V(!new)>()
    ensures Inv(NewPass<V>())
  {
  }

  /** A result, once shared, is never replaced: an entry is written once. */
  lemma {:induction false} ResultIsFinal<V(!new)>(p: Pass<V>, steps: seq<Step<V>>, name: string)
    requires Inv(p) && IsRun(p, steps) && name in p.entries && p.entries[name].Closed?
    ensures name in After(p, steps).entries && After(p, steps).entries[name] == p.entries[name]
    decreases |steps|
  {
    if steps != [] {
      hide IsRun, After;
      StepKeepsInv(p, steps[0]);
      EntryKept(p, steps[0], name);
      RunUnfolds(p, steps);
      ResultIsFinal(Next(p, steps[0]), steps[1..], name);
    } else {
      assert After(p, steps) == p;
    }
  }

  lemma RunUnfolds<V>(p: Pass<V>, steps: seq<Step<V>>)
    requires IsRun(p, steps) && steps != []
    ensures Enabled(p, steps[0]) && IsRun(Next(p, steps[0]), steps[1..])
    ensures After(p, steps) == After(Next(p, steps[0]), steps[1..])
  {
  }

  lemma EntryKept<V(!new)>(p: Pass<V>, step: Step<V>, name: string)
    requires Inv(p) && Enabled(p, step) && name in p.entries && p.entries[name].Closed?
    ensures name in Next(p, step).entries && Next(p, step).entries[name] == p.entries[name]
  {
    if step.Close? {
      assert CallOk(p, step.id);
    }
  }

  // ---- progress ---------------------------------------------------------------------------------------------

  /** While any call is unsettled, some step other than a new call or a cancellation can be taken, if
      fetches return and only ask for names of a lower rank. */
  lemma {:induction false} SomeStepIsEnabled<V(!new)>(p: Pass<V>, rank: string -> nat, id: nat, result: V)
    returns (step: Step<V>)
    requires Inv(p) && Layered(p, rank) && id in p.calls && !Settled(p.calls[id].phase)
    ensures Enabled(p, step) && !step.Begin? && !step.GiveUp?
    decreases rank(p.calls[id].name), if p.calls[id].phase.Waiting? then 1 else 0
  {
    assert CallOk(p, id);
    var c := p.calls[id];
    if c.phase.Starting? {
      step := LoadOrStore(id);
    } else if c.phase.Waiting? {
      if p.entries[c.name].Closed? {
        step := Wake(id);
      } else {
        step := SomeStepIsEnabled(p, rank, p.entries[c.name].owner, result);
      }
    } else if ChildrenSettled(p, id) {
      step := Close(id, result);
    } else {
      var child :| child in p.calls && p.calls[child].parent == Some(id) && !Settled(p.calls[child].phase);
      step := SomeStepIsEnabled(p, rank, child, result);
    }
  }

  function StepsLeft<V>(phase: Phase<V>): nat {
    if phase.Starting? then 2 else if Settled(phase) then 0 else 1
  }

  function AtLeast<V>(p: Pass<V>, k: nat): set<nat> {
    set id | id in p.calls && StepsLeft(p.calls[id].phase) >= k
  }

  function Work<V>(p: Pass<V>): nat {
    |AtLeast(p, 1)| + |AtLeast(p, 2)|
  }

  lemma StepMakesProgress<V>(p: Pass<V>, step: Step<V>)
    requires Enabled(p, step) && !step.Begin?
    ensures Work(Next(p, step)) < Work(p)
  {
    var p' := Next(p, step);
    var k := StepsLeft(p.calls[step.id].phase);
    Shrinks(AtLeast(p', 1), AtLeast(p, 1));
    Shrinks(AtLeast(p', 2), AtLeast(p, 2));
    assert step.id in AtLeast(p, k) && step.id !in AtLeast(p', k);
  }

  ghost predicate AllSettled<V>(p: Pass<V>) {
    forall id :: id in p.calls ==> Settled(p.calls[id].phase)
  }

  lemma SomeoneIsCloser<V(!new)>(p: Pass<V>, rank: string -> nat, result: V) returns (step: Step<V>)
    requires Inv(p) && Layered(p, rank) && !AllSettled(p)
    ensures Enabled(p, step) && !step.Begin? && !step.GiveUp?
    ensures Inv(Next(p, step)) && Layered(Next(p, step), rank) && Work(Next(p, step)) < Work(p)
  {
    hide Inv, Work;
    var id :| id in p.calls && !Settled(p.calls[id].phase);
    step := SomeStepIsEnabled(p, rank, id, result);
    StepMakesProgress(p, step);
    StepKeepsInv(p, step);
  }

  lemma StepThenRun<V>(p: Pass<V>, step: Step<V>, rest: seq<Step<V>>)
    requires Enabled(p, step) && IsRun(Next(p, step), rest)
    ensures IsRun(p, [step] + rest) && After(p, [step] + rest) == After(Next(p, step), rest)
  {
    hide Enabled, Next;
    assert ([step] + rest)[1..] == rest;
  }

  /** So every call returns: from any reachable state of a layered pass some run, of at most Work steps and
      with no cancellation, settles all calls. */
  lemma {:induction false} EveryoneReturns<V(!new)>(p: Pass<V>, rank: string -> nat, result: V)
    returns (steps: seq<Step<V>>)
    requires Inv(p) && Layered(p, rank)
    ensures IsRun(p, steps) && |steps| <= Work(p) && AllSettled(After(p, steps))
    ensures forall i :: 0 <= i < |steps| ==> !steps[i].Begin? && !steps[i].GiveUp?
    decreases Work(p)
  {
    hide Inv, Layered, Enabled, Next, Work, AllSettled;
    if AllSettled(p) {
      steps := [];
    } else {
      var step := SomeoneIsCloser(p, rank, result);
      var rest := EveryoneReturns(Next(p, step), rank, result);
      steps := [step] + rest;
      StepThenRun(p, step, rest);
    }
  }

  /** Layering is needed: once a fetch waits for its own name, no sequence of steps short of a
      cancellation lets either call return. */
  lemma {:induction false} SelfNestingNeverReturns<V(!new)>(p: Pass<V>, outer: nat, inner: nat, steps: seq<Step<V>>)
    requires Inv(p) && outer in p.calls && inner in p.calls && p.calls[inner].parent == Some(outer)
    requires p.calls[inner].name == p.calls[outer].name
    requires p.calls[outer].phase.Fetching? && p.calls[inner].phase.Waiting?
    requires IsRun(p, steps) && GiveUp(inner) !in steps
    ensures var p' := After(p, steps);
      outer in p'.calls && inner in p'.calls && p'.calls[outer] == p.calls[outer] && p'.calls[inner] == p.calls[inner]
    decreases |steps|
  {
    if steps != [] {
      var step := steps[0];
      assert step in steps && GiveUp(inner) !in steps[1..];
      assert CallOk(p, outer) && CallOk(p, inner);
      StepKeepsInv(p, step);
      SelfNestingNeverReturns(Next(p, step), outer, inner, steps[1..]);
    }
  }

  /** A call with a new id can begin at any time, from outside or from a fetch that is running. The first one
      for a name fetches it and every other one waits; a fetch that is over, its own calls settled, stores its
      result; and a waiting call can give up at any time, or return the result once it is there. */
  lemma CallsCanGoOn<V(!new)>(p: Pass<V>, id: nat, name: string, parent: Option<nat>, result: V)
    ensures id !in p.calls && (parent.None? || (parent.value in p.calls && p.calls[parent.value].phase.Fetching?)) ==>
              var begin := Begin(id, name, parent);
              Enabled(p, begin) && Next(p, begin) == p.(calls := p.calls[id := Call(name, parent, Starting)])
    ensures id in p.calls && p.calls[id].phase.Starting? ==>
              && Enabled(p, LoadOrStore(id))
              && var p' := Next(p, LoadOrStore(id));
                 if p.calls[id].name in p.entries
                 then p'.calls[id].phase == Waiting && p'.entries == p.entries && p'.fetched == p.fetched
                 else p'.calls[id].phase == Fetching && p'.fetched == p.fetched + [p.calls[id].name]
    ensures id in p.calls && p.calls[id].phase.Fetching? && ChildrenSettled(p, id) ==>
              && Enabled(p, Close(id, result))
              && var p' := Next(p, Close(id, result));
                 p'.calls[id].phase == Returned(result) && p'.entries == p.entries[p.calls[id].name := Closed(result)]
    ensures id in p.calls && p.calls[id].phase.Waiting? ==>
              Enabled(p, GiveUp(id)) && Next(p, GiveUp(id)).calls[id].phase == Cancelled
    ensures id in p.calls && p.calls[id].phase.Waiting?
            && p.calls[id].name in p.entries && p.entries[p.calls[id].name] == Closed(result) ==>
              Enabled(p, Wake(id)) && Next(p, Wake(id)).calls[id].phase == Returned(result)
  {
  }
}
