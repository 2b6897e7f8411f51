/**
  The login limiter (internal/api/ratelimit.go, loginLimiter): failed attempts are counted per key in a
  sliding window, and a key with too many is locked out. The functions say what one call does; the
  class changes its two maps in place. Times are nanoseconds.
 */
module LoginLimiter {
  import opened RequestLimiter

  datatype Rules = Rules(max: int, window: int, lockout: int)

  datatype State = State(attempts: map<string, seq<int>>, lockouts: map<string, int>)

  function TimesOn(s: State, key: string): seq<int> {
    if key in s.attempts then s.attempts[key] else []
  }

  predicate LockedAt(s: State, key: string, now: int) {
    key in s.lockouts && s.lockouts[key] > now
  }

  predicate Forgotten(r: Rules, s: State, key: string, now: int) {
    key in s.attempts && !LockedAt(s, key, now)
    && var times := s.attempts[key]; times == [] || now - times[|times| - 1] > r.window
  }

  function Cleaned(r: Rules, s: State, now: int): State {
    State(map k | k in s.attempts && !Forgotten(r, s, k, now) :: s.attempts[k],
          map k | k in s.lockouts && !Forgotten(r, s, k, now) :: s.lockouts[k])
  }

  /** Part of the way there: the keys of `todo` are still to be looked at. */
  ghost function Swept(r: Rules, s: State, todo: set<string>, now: int): State {
    State(map k | k in s.attempts && (k in todo || !Forgotten(r, s, k, now)) :: s.attempts[k],
          map k | k in s.lockouts && (k in todo || !Forgotten(r, s, k, now)) :: s.lockouts[k])
  }

  lemma SweptOne(r: Rules, s: State, todo: set<string>, key: string, now: int)
    requires key in todo && key in s.attempts
    ensures var before := Swept(r, s, todo, now);
      before.attempts.Keys >= {key} && before.attempts[key] == s.attempts[key]
      && LockedAt(before, key, now) == LockedAt(s, key, now)
      && Swept(r, s, todo - {key}, now)
         == if Forgotten(r, s, key, now) then State(before.attempts - {key}, before.lockouts - {key}) else before
  {
    var before, after := Swept(r, s, todo, now), Swept(r, s, todo - {key}, now);
    if Forgotten(r, s, key, now) {
      assert after.attempts == before.attempts - {key};
      assert after.lockouts == before.lockouts - {key};
    } else {
      assert after.attempts == before.attempts;
      assert after.lockouts == before.lockouts;
    }
  }

  lemma SweptEnds(r: Rules, s: State, now: int)
    ensures Swept(r, s, s.attempts.Keys, now) == s && Swept(r, s, {}, now) == Cleaned(r, s, now)
  {
    var all := Swept(r, s, s.attempts.Keys, now);
    assert all.attempts == s.attempts && all.lockouts == s.lockouts;
  }

  function Pruned(r: Rules, s: State, key: string, now: int): (p: State)
    ensures key in p.attempts && p.lockouts == s.lockouts
  {
    s.(attempts := s.attempts[key := Later(TimesOn(s, key), now - r.window)])
  }

  /** A key that is locked waits; one with too many failures in its window is locked; others may go on. */
  function Answer(r: Rules, s: State, key: string, now: int): (bool, int, State) {
    if LockedAt(s, key, now) then (false, s.lockouts[key] - now, s)
    else
      var s1 := Pruned(r, s.(lockouts := s.lockouts - {key}), key, now);
      if |s1.attempts[key]| >= r.max then
        (false, r.lockout, s1.(lockouts := s1.lockouts[key := now + r.lockout]))
      else (true, 0, s1)
  }

  /** allow: the answer, the time to wait, and the state afterwards. */
  function AllowSpec(r: Rules, s0: State, key: string, now: int): (bool, int, State) {
    var s := Cleaned(r, s0, now);
    if key !in s.attempts && |s.attempts| >= MAX_KEYS then (false, r.window, s) else Answer(r, s, key, now)
  }

  /** record: a success forgets the key; a failure counts unless the window is already full. */
  function RecordSpec(r: Rules, s: State, key: string, failed: bool, now: int): State {
    if !failed then State(s.attempts - {key}, s.lockouts - {key})
    else
      var s1 := Pruned(r, s, key, now);
      if |s1.attempts[key]| < r.max then s1.(attempts := s1.attempts[key := s1.attempts[key] + [now]]) else s1
  }

  class Limiter {
    const rules: Rules
    var attempts: map<string, seq<int>>
    var lockouts: map<string, int>

    function Current(): State
      reads this
    {
      State(attempts, lockouts)
    }

    constructor (rules: Rules)
      ensures this.rules == rules && Current() == State(map[], map[])
    {
      this.rules := rules;
      attempts, lockouts := map[], map[];
    }

    method Prune(key: string, now: int)
      modifies this`attempts
      ensures Current() == Pruned(rules, old(Current()), key, now)
    {
      var times := if key in attempts then attempts[key] else [];
      var kept: seq<int> := [];
      for i := 0 to |times|
        invariant kept == Later(times[..i], now - rules.window)
      {
        assert times[..i + 1][..i] == times[..i];
        if times[i] > now - rules.window {
          kept := kept + [times[i]];
        }
      }
      assert times[..|times|] == times;
      attempts := attempts[key := kept];
    }

    /** The loop at the start of allow. */
    method Clean(now: int)
      modifies this
      ensures Current() == Cleaned(rules, old(Current()), now)
    {
      hide Swept, Cleaned;
      ghost var start := Current();
      var todo := attempts.Keys;
      SweptEnds(rules, start, now);
      while todo != {}
        invariant todo <= start.attempts.Keys
        invariant Current() == Swept(rules, start, todo, now)
        decreases |todo|
      {
        var k :| k in todo;
        SweptOne(rules, start, todo, k, now);
        todo := todo - {k};
        var until := if k in lockouts then lockouts[k] else now;
        var times := attempts[k];
        if until <= now && (times == [] || now - times[|times| - 1] > rules.window) {
          attempts := attempts - {k};
          lockouts := lockouts - {k};
        }
      }
    }

    method Allow(key: string, now: int) returns (ok: bool, wait: int)
      modifies this
      ensures var (answer, delay, after) := AllowSpec(rules, old(Current()), key, now);
        ok == answer && wait == delay && Current() == after
    {
      hide Cleaned, Later, Pruned, Answer;
      Clean(now);
      if key !in attempts && |attempts| >= MAX_KEYS {
        return false, rules.window;
      }
      ok, wait := Decide(key, now);
    }

    /** The rest of allow, for a key that is known or may be added. */
    method Decide(key: string, now: int) returns (ok: bool, wait: int)
      modifies this
      ensures var (answer, delay, after) := Answer(rules, old(Current()), key, now);
        ok == answer && wait == delay && Current() == after
    {
      hide Later, Pruned;
      ghost var s := Current();
      if key in lockouts {
        if now < lockouts[key] {
          return false, lockouts[key] - now;
        }
        lockouts := lockouts - {key};
      }
      assert lockouts == s.lockouts - {key};
      Prune(key, now);
      if |attempts[key]| >= rules.max {
        lockouts := lockouts[key := now + rules.lockout];
        return false, rules.lockout;
      }
      return true, 0;
    }

    method Record(key: string, failed: bool, now: int)
      modifies this
      ensures Current() == RecordSpec(rules, old(Current()), key, failed, now)
    {
      hide Later;
      if !failed {
        attempts := attempts - {key};
        lockouts := lockouts - {key};
        return;
      }
      Prune(key, now);
      if |attempts[key]| < rules.max {
        attempts := attempts[key := attempts[key] + [now]];
      }
    }
  }

  // ---- runs ------------------------------------------------------------------------------------------------

  datatype Call = Allow(key: string, now: int) | Record(key: string, failed: bool, now: int)

  function Next(r: Rules, s: State, call: Call): State {
    match call
    case Allow(key, now) => AllowSpec(r, s, key, now).2
    case Record(key, failed, now) => RecordSpec(r, s, key, failed, now)
  }

  function Run(r: Rules, s: State, calls: seq<Call>): State {
    if calls == [] then s else Next(r, Run(r, s, calls[..|calls| - 1]), calls[|calls| - 1])
  }

  /** Locked until a time, and listed, so that the bound on keys cannot turn it away for another reason. */
  ghost predicate LockedUntil(s: State, key: string, until: int) {
    key in s.attempts && key in s.lockouts && s.lockouts[key] == until
  }

  /** A refusal because of too many failures locks the key for the whole lockout. */
  lemma RefusalLocks(r: Rules, s: State, key: string, now: int)
    requires var s1 := Cleaned(r, s, now);
      !LockedAt(s1, key, now) && (key in s1.attempts || |s1.attempts| < MAX_KEYS)
    ensures var (ok, wait, s') := AllowSpec(r, s, key, now);
      if |Later(TimesOn(Cleaned(r, s, now), key), now - r.window)| >= r.max
      then !ok && wait == r.lockout && LockedUntil(s', key, now + r.lockout)
      else ok && key !in s'.lockouts
  {
    hide Later, Cleaned;
  }

  /** No call before its end undoes a lock, but a success recorded for the key. */
  lemma LockSurvives(r: Rules, s: State, key: string, until: int, call: Call)
    requires LockedUntil(s, key, until) && call.now < until
    requires !(call.Record? && call.key == key && !call.failed)
    ensures LockedUntil(Next(r, s, call), key, until)
  {
    hide Later;
    if call.Allow? {
      assert !Forgotten(r, s, key, call.now);
    }
  }

  /** Once locked, a key is refused at every time before its lock ends, with the exact wait, whatever
      is called in between for it or for other keys, unless a success is recorded for it. */
  lemma {:induction false} LockedOut(r: Rules, s: State, key: string, until: int, calls: seq<Call>, now: int)
    requires LockedUntil(s, key, until) && now < until
    requires forall i :: 0 <= i < |calls| ==>
      calls[i].now < until && !(calls[i].Record? && calls[i].key == key && !calls[i].failed)
    ensures LockedUntil(Run(r, s, calls), key, until)
    ensures var (ok, wait, _) := AllowSpec(r, Run(r, s, calls), key, now); !ok && wait == until - now
  {
    hide Later, Next;
    if calls != [] {
      LockedOut(r, s, key, until, calls[..|calls| - 1], now);
      LockSurvives(r, Run(r, s, calls[..|calls| - 1]), key, until, calls[|calls| - 1]);
    }
    assert !Forgotten(r, Run(r, s, calls), key, now);
  }

  /** The promise of the limiter: a key with too many failures in its window is refused, and refused again
      with the exact time left until the lockout is over, whatever is called in between, unless a success
      is recorded for it. */
  lemma RefusedUntilTheEnd(r: Rules, s: State, key: string, t: int, calls: seq<Call>, now: int)
    requires var s1 := Cleaned(r, s, t);
      !LockedAt(s1, key, t) && (key in s1.attempts || |s1.attempts| < MAX_KEYS)
      && |Later(TimesOn(s1, key), t - r.window)| >= r.max
    requires now < t + r.lockout
    requires forall i :: 0 <= i < |calls| ==>
      calls[i].now < t + r.lockout && !(calls[i].Record? && calls[i].key == key && !calls[i].failed)
    ensures var (ok, wait, s') := AllowSpec(r, s, key, t);
      !ok && wait == r.lockout
      && var (again, left, _) := AllowSpec(r, Run(r, s', calls), key, now); !again && left == t + r.lockout - now
  {
    hide Later, Cleaned, AllowSpec, Run;
    RefusalLocks(r, s, key, t);
    LockedOut(r, AllowSpec(r, s, key, t).2, key, t + r.lockout, calls, now);
  }

  // ---- how a key comes to be locked ----------------------------------------------------------------------------

  /** The times of the failures recorded for a key, in order, since its last success. */
  function Failures(calls: seq<Call>, key: string): seq<int> {
    if calls == [] then []
    else
      var before, last := Failures(calls[..|calls| - 1], key), calls[|calls| - 1];
      if !last.Record? || last.key != key then before
      else if last.failed then before + [last.now]
      else []
  }

  /** The calls are in time order, and none is later than `now`. */
  ghost predicate InOrder(calls: seq<Call>, now: int) {
    && (forall i, j :: 0 <= i < j < |calls| ==> calls[i].now <= calls[j].now)
    && (forall i :: 0 <= i < |calls| ==> calls[i].now <= now)
  }

  /** The failures of a key that are younger than the window. */
  function Recent(r: Rules, calls: seq<Call>, key: string, now: int): seq<int> {
    Later(Failures(calls, key), now - r.window)
  }

  /** Every attempt for the key so far, asked for or failed, came when it had fewer than `max` recent
      failures. */
  ghost predicate BelowMax(r: Rules, calls: seq<Call>, key: string) {
    forall i :: 0 <= i < |calls| && calls[i].key == key && (calls[i].Allow? || calls[i].failed) ==>
      |Recent(r, calls[..i], key, calls[i].now)| < r.max
  }

  /** The limiter's times for a key and its failures agree on what is recent, and it is not locked. */
  ghost predicate Counts(r: Rules, s: State, failures: seq<int>, key: string, now: int) {
    && UpTo(TimesOn(s, key), now) && UpTo(failures, now)
    && Later(TimesOn(s, key), now - r.window) == Later(failures, now - r.window)
    && key !in s.lockouts
  }

  lemma CountsLater(r: Rules, s: State, failures: seq<int>, key: string, before: int, now: int)
    requires Counts(r, s, failures, key, before) && before <= now
    ensures Counts(r, s, failures, key, now)
  {
    hide UpTo, Later;
    UpToLater(TimesOn(s, key), before, now);
    UpToLater(failures, before, now);
    LaterLater(TimesOn(s, key), before - r.window, now - r.window);
    LaterLater(failures, before - r.window, now - r.window);
  }

  lemma CountsAfterClean(r: Rules, s: State, failures: seq<int>, key: string, now: int)
    requires Counts(r, s, failures, key, now)
    ensures Counts(r, Cleaned(r, s, now), failures, key, now)
  {
    LaterUpTo(TimesOn(s, key), now - r.window, now);
  }

  lemma CountsAfterPrune(r: Rules, s: State, failures: seq<int>, key: string, now: int)
    requires Counts(r, s, failures, key, now)
    ensures Counts(r, Pruned(r, s, key, now), failures, key, now)
    ensures TimesOn(Pruned(r, s, key, now), key) == Later(failures, now - r.window)
  {
    hide UpTo, Later;
    LaterLater(TimesOn(s, key), now - r.window, now - r.window);
    LaterUpTo(TimesOn(s, key), now - r.window, now);
  }

  /** A call for another key. */
  lemma CountsAfterOther(r: Rules, s: State, failures: seq<int>, key: string, call: Call)
    requires Counts(r, s, failures, key, call.now) && call.key != key
    ensures Counts(r, Next(r, s, call), failures, key, call.now)
  {
    hide UpTo, Later, Cleaned;
    CountsAfterClean(r, s, failures, key, call.now);
  }

  lemma CountsAfterAllow(r: Rules, s: State, failures: seq<int>, key: string, now: int)
    requires Counts(r, s, failures, key, now) && |Later(failures, now - r.window)| < r.max
    ensures Counts(r, AllowSpec(r, s, key, now).2, failures, key, now)
  {
    hide UpTo, Later, Cleaned, Pruned;
    var s1 := Cleaned(r, s, now);
    CountsAfterClean(r, s, failures, key, now);
    assert s1.(lockouts := s1.lockouts - {key}) == s1;
    CountsAfterPrune(r, s1, failures, key, now);
  }

  lemma RecordTimes(r: Rules, s: State, key: string, now: int)
    ensures var kept, s' := Later(TimesOn(s, key), now - r.window), RecordSpec(r, s, key, true, now);
            s'.lockouts == s.lockouts && TimesOn(s', key) == if |kept| < r.max then kept + [now] else kept
  {
    hide Later;
  }

  lemma CountsAfterFailure(r: Rules, s: State, failures: seq<int>, key: string, now: int)
    requires Counts(r, s, failures, key, now) && |Later(failures, now - r.window)| < r.max
    ensures Counts(r, RecordSpec(r, s, key, true, now), failures + [now], key, now)
  {
    hide UpTo, Later, RecordSpec, TimesOn;
    RecordTimes(r, s, key, now);
    var kept := Later(failures, now - r.window);
    LaterLater(failures, now - r.window, now - r.window);
    LaterUpTo(failures, now - r.window, now);
    LaterOfMore(failures, now, now - r.window);
    LaterOfMore(kept, now, now - r.window);
    UpToMore(failures, now);
    UpToMore(kept, now);
  }

  lemma CountsStep(r: Rules, s: State, calls: seq<Call>, key: string, call: Call)
    requires Counts(r, s, Failures(calls, key), key, call.now)
    requires call.key == key && (call.Allow? || call.failed) ==> |Recent(r, calls, key, call.now)| < r.max
    ensures Counts(r, Next(r, s, call), Failures(calls + [call], key), key, call.now)
  {
    hide Counts, Later, AllowSpec, RecordSpec;
    assert (calls + [call])[..|calls|] == calls;
    var failures := Failures(calls, key);
    if call.key != key {
      CountsAfterOther(r, s, failures, key, call);
    } else if call.Allow? {
      CountsAfterAllow(r, s, failures, key, call.now);
    } else if call.failed {
      CountsAfterFailure(r, s, failures, key, call.now);
    } else {
      CountsAfterSuccess(r, s, key, call.now);
    }
  }

  lemma CountsAfterSuccess(r: Rules, s: State, key: string, now: int)
    ensures Counts(r, RecordSpec(r, s, key, false, now), [], key, now)
  {
  }

  const EMPTY: State := State(map[], map[])

  /** After any calls in time order in which the key was never at its limit, the limiter holds exactly its
      recent failures, and the key is not locked. */
  lemma {:induction false} FailuresAreCounted(r: Rules, calls: seq<Call>, key: string, now: int)
    requires InOrder(calls, now) && BelowMax(r, calls, key)
    ensures Later(TimesOn(Run(r, EMPTY, calls), key), now - r.window) == Recent(r, calls, key, now)
    ensures Counts(r, Run(r, EMPTY, calls), Failures(calls, key), key, now)
    decreases |calls|
  {
    hide Later, Next, UpTo, Recent;
    if calls == [] {
      CountsAtStart(r, key, now);
    } else {
      var init, last := calls[..|calls| - 1], calls[|calls| - 1];
      assert calls == init + [last];
      BelowMaxBefore(r, calls, key);
      FailuresAreCounted(r, init, key, last.now);
      CountsStep(r, Run(r, EMPTY, init), init, key, last);
      CountsLater(r, Run(r, EMPTY, calls), Failures(calls, key), key, last.now, now);
    }
    assert Recent(r, calls, key, now) == Later(Failures(calls, key), now - r.window) by {
      RecentIs(r, calls, key, now);
    }
  }

  lemma RecentIs(r: Rules, calls: seq<Call>, key: string, now: int)
    ensures Recent(r, calls, key, now) == Later(Failures(calls, key), now - r.window)
  {
  }

  lemma BelowMaxBefore(r: Rules, calls: seq<Call>, key: string)
    requires BelowMax(r, calls, key) && calls != []
    ensures var init, last := calls[..|calls| - 1], calls[|calls| - 1];
            BelowMax(r, init, key)
            && (last.key == key && (last.Allow? || last.failed) ==> |Recent(r, init, key, last.now)| < r.max)
  {
    hide Recent;
    var init := calls[..|calls| - 1];
    forall i | 0 <= i < |init| && init[i].key == key && (init[i].Allow? || init[i].failed)
      ensures |Recent(r, init[..i], key, init[i].now)| < r.max
    {
      assert init[..i] == calls[..i] && init[i] == calls[i];
    }
  }

  lemma CountsAtStart(r: Rules, key: string, now: int)
    ensures Counts(r, Run(r, EMPTY, []), Failures([], key), key, now)
  {
  }

  /** The keys that are still known after the clean-up are those with a lock that has not ended or an attempt
      within the window, with the same times; and a key that is not among them is turned away for one
      window if there are 10000. */
  lemma KnownKeys(r: Rules, s: State, key: string, now: int)
    ensures var known := Cleaned(r, s, now).attempts;
            && (key in known <==>
                  key in s.attempts
                  && ((key in s.lockouts && s.lockouts[key] > now)
                      || (s.attempts[key] != [] && s.attempts[key][|s.attempts[key]| - 1] >= now - r.window)))
            && (key in known ==> known[key] == s.attempts[key])
            && (key !in known && |known| >= 10000 ==>
                  AllowSpec(r, s, key, now) == (false, r.window, Cleaned(r, s, now)))
  {
  }

  /** The promise of the limiter: once `max` failures are recorded for a key within one window, the first
      attempt is refused and the key locked for the whole lockout, and so is every attempt until it ends,
      however many other keys are known and whatever is called in between, unless it succeeds. With fewer
      recent failures it may go on, if it is known or there is room for another key. */
  lemma LockedAfterMaxFailures(r: Rules, calls: seq<Call>, key: string, now: int)
    requires InOrder(calls, now) && BelowMax(r, calls, key) && r.max > 0
    ensures var s := Run(r, EMPTY, calls);
            var (ok, wait, s') := AllowSpec(r, s, key, now);
            if |Recent(r, calls, key, now)| >= r.max
            then !ok && wait == r.lockout && LockedUntil(s', key, now + r.lockout)
            else (key in Cleaned(r, s, now).attempts || |Cleaned(r, s, now).attempts| < 10000) ==>
                   ok && wait == 0 && key !in s'.lockouts
  {
    hide Later, Run, AllowSpec, Cleaned, UpTo, Recent;
    FailuresAreCounted(r, calls, key, now);
    RecentIs(r, calls, key, now);
    var s, failures := Run(r, EMPTY, calls), Failures(calls, key);
    var s1 := Cleaned(r, s, now);
    CountsAfterClean(r, s, failures, key, now);
    if |Recent(r, calls, key, now)| >= r.max {
      ListedIfLater(s1, key, now - r.window);
      RefusalLocks(r, s, key, now);
    } else if key in s1.attempts || |s1.attempts| < MAX_KEYS {
      RefusalLocks(r, s, key, now);
      AllowedWaits(r, s, key, now);
    }
  }

  lemma ListedIfLater(s: State, key: string, cutoff: int)
    requires |Later(TimesOn(s, key), cutoff)| > 0
    ensures key in s.attempts
  {
  }

  lemma AllowedWaits(r: Rules, s: State, key: string, now: int)
    ensures AllowSpec(r, s, key, now).0 ==> AllowSpec(r, s, key, now).1 == 0
  {
    hide Later, Cleaned;
  }

  lemma LockedOutAfterMaxFailures(r: Rules, calls: seq<Call>, key: string, t: int, more: seq<Call>, now: int)
    requires InOrder(calls, t) && BelowMax(r, calls, key) && r.max > 0
    requires |Recent(r, calls, key, t)| >= r.max && now < t + r.lockout
    requires forall i :: 0 <= i < |more| ==>
      more[i].now < t + r.lockout && !(more[i].Record? && more[i].key == key && !more[i].failed)
    ensures var s := AllowSpec(r, Run(r, EMPTY, calls), key, t).2;
            var (ok, wait, _) := AllowSpec(r, Run(r, s, more), key, now);
            !ok && wait == t + r.lockout - now
  {
    hide Recent, Run, AllowSpec, BelowMax;
    LockedAfterMaxFailures(r, calls, key, t);
    LockedOut(r, AllowSpec(r, Run(r, EMPTY, calls), key, t).2, key, t + r.lockout, more, now);
  }

  /** The key's window is full at this time, and it is not locked yet. */
  ghost predicate Full(r: Rules, s: State, key: string, now: int) {
    UpTo(TimesOn(s, key), now) && |Later(TimesOn(s, key), now - r.window)| >= r.max && key !in s.lockouts
  }

  lemma LongerForLonger(times: seq<int>, early: int, late: int)
    requires early <= late
    ensures |Later(times, early)| >= |Later(times, late)|
  {
    LaterLater(times, early, late);
  }

  lemma FullStep(r: Rules, s: State, key: string, call: Call, now: int)
    requires Full(r, s, key, now) && r.max > 0 && call.now <= now
    requires call.key == key ==> call.Record? && call.failed
    ensures Full(r, Next(r, s, call), key, now)
  {
    hide UpTo, Later, Cleaned, RecordSpec, Pruned;
    var times := TimesOn(s, key);
    if call.key == key {
      RecordTimes(r, s, key, call.now);
      LongerForLonger(times, call.now - r.window, now - r.window);
      LaterLater(times, call.now - r.window, now - r.window);
      LaterUpTo(times, call.now - r.window, now);
    } else {
      FullIsKnown(r, s, key, call.now, now);
      OtherTimes(r, s, key, call);
    }
  }

  lemma FullIsKnown(r: Rules, s: State, key: string, t: int, now: int)
    requires Full(r, s, key, now) && r.max > 0 && t <= now
    ensures key in s.attempts && !Forgotten(r, s, key, t)
  {
    LaterUpTo(TimesOn(s, key), now - r.window, now);
  }

  lemma OtherTimes(r: Rules, s: State, key: string, call: Call)
    requires call.key != key && !Forgotten(r, s, key, call.now)
    ensures TimesOn(Next(r, s, call), key) == TimesOn(s, key)
    ensures key !in s.lockouts ==> key !in Next(r, s, call).lockouts
  {
    hide Later;
  }

  lemma {:induction false} StaysFull(r: Rules, s: State, key: string, calls: seq<Call>, now: int)
    requires Full(r, s, key, now) && r.max > 0
    requires forall i :: 0 <= i < |calls| ==>
               calls[i].now <= now && (calls[i].key == key ==> calls[i].Record? && calls[i].failed)
    ensures Full(r, Run(r, s, calls), key, now)
    decreases |calls|
  {
    hide Full, Next;
    if calls != [] {
      StaysFull(r, s, key, calls[..|calls| - 1], now);
      FullStep(r, Run(r, s, calls[..|calls| - 1]), key, calls[|calls| - 1], now);
    }
  }

  /** Failures of attempts that were let through side by side, recorded after the window is full, change
      nothing: the next attempt is still refused, as long as the first `max` failures are recent. */
  lemma LockedAfterLateFailures(r: Rules, calls: seq<Call>, key: string, t: int, late: seq<Call>, now: int)
    requires InOrder(calls, t) && BelowMax(r, calls, key) && r.max > 0 && t <= now
    requires |Recent(r, calls, key, now)| >= r.max
    requires forall i :: 0 <= i < |late| ==>
               late[i].now <= now && (late[i].key == key ==> late[i].Record? && late[i].failed)
    ensures var (ok, wait, s') := AllowSpec(r, Run(r, Run(r, EMPTY, calls), late), key, now);
            !ok && wait == r.lockout && LockedUntil(s', key, now + r.lockout)
  {
    hide Later, Run, AllowSpec, Cleaned, UpTo, Recent, BelowMax, LockedUntil, TimesOn;
    FailuresAreCounted(r, calls, key, t);
    CountsLater(r, Run(r, EMPTY, calls), Failures(calls, key), key, t, now);
    RecentIs(r, calls, key, now);
    StaysFull(r, Run(r, EMPTY, calls), key, late, now);
    FullIsRefused(r, Run(r, Run(r, EMPTY, calls), late), key, now);
  }

  lemma FullIsRefused(r: Rules, s: State, key: string, now: int)
    requires Full(r, s, key, now) && r.max > 0
    ensures var (ok, wait, s') := AllowSpec(r, s, key, now);
            !ok && wait == r.lockout && LockedUntil(s', key, now + r.lockout)
  {
    hide Later, AllowSpec, UpTo;
    FullIsKnown(r, s, key, now, now);
    RefusalLocks(r, s, key, now);
  }
}
