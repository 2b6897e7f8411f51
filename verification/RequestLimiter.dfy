/**
  The per-client request limiter (internal/api/hardening.go, ipLimiter). `Allowed` is one call as a
  function of the window map; the class changes the map in place. Times are nanoseconds, and successive
  calls carry times that do not go back.
 */
module RequestLimiter {
  import opened Sets

  const MAX_KEYS: nat := 10000

  datatype Limits = Limits(max: int, win: int)

  type Window = map<string, seq<int>>

  /** The times later than a cutoff, in order. */
  function Later(times: seq<int>, cutoff: int): (r: seq<int>)
    ensures |r| <= |times|
  {
    if times == [] then []
    else
      var last := times[|times| - 1];
      Later(times[..|times| - 1], cutoff) + (if last > cutoff then [last] else [])
  }

  predicate Idle(times: seq<int>, l: Limits, now: int) {
    times == [] || now - times[|times| - 1] >= l.win
  }

  function WithoutIdle(w: Window, l: Limits, now: int): Window {
    map k | k in w && !Idle(w[k], l, now) :: w[k]
  }

  function TimesIn(w: Window, key: string): seq<int> {
    if key in w then w[key] else []
  }

  /** One call: whether the request may proceed, and the map afterwards. */
  function Allowed(l: Limits, w: Window, key: string, now: int): (bool, Window) {
    var w1 := if key in w then w else WithoutIdle(w, l, now);
    if key !in w && |w1| >= MAX_KEYS then (false, w1)
    else
      var kept := Later(TimesIn(w1, key), now - l.win);
      if |kept| >= l.max then (false, w1[key := kept]) else (true, w1[key := kept + [now]])
  }

  class Limiter {
    const limits: Limits
    var window: Window

    constructor (limits: Limits)
      ensures this.limits == limits && window == map[]
    {
      this.limits := limits;
      window := map[];
    }

    method Allow(key: string, now: int) returns (ok: bool)
      modifies this`window
      ensures (ok, window) == Allowed(limits, old(window), key, now)
    {
      var isNew := key !in window;
      ghost var start := window;
      if isNew {
        var todo := window.Keys;
        while todo != {}
          invariant todo <= start.Keys
          invariant window == map k | k in start && (k in todo || !Idle(start[k], limits, now)) :: start[k]
          decreases |todo|
        {
          var k :| k in todo;
          todo := todo - {k};
          if Idle(window[k], limits, now) {
            window := window - {k};
          }
        }
        assert window == WithoutIdle(start, limits, now);
        if |window| >= MAX_KEYS {
          return false;
        }
      }
      var times := if key in window then window[key] else [];
      var kept: seq<int> := [];
      for i := 0 to |times|
        invariant kept == Later(times[..i], now - limits.win)
      {
        assert times[..i + 1][..i] == times[..i];
        if times[i] > now - limits.win {
          kept := kept + [times[i]];
        }
      }
      assert times[..|times|] == times;
      if |kept| >= limits.max {
        window := window[key := kept];
        return false;
      }
      window := window[key := kept + [now]];
      return true;
    }
  }

  // ---- runs ------------------------------------------------------------------------------------------------

  datatype Request = Request(key: string, now: int)

  /** The map after a run of requests, and those that were admitted. */
  function Run(l: Limits, requests: seq<Request>): (Window, seq<Request>) {
    if requests == [] then (map[], [])
    else
      var (w, log) := Run(l, requests[..|requests| - 1]);
      var r := requests[|requests| - 1];
      var (ok, w') := Allowed(l, w, r.key, r.now);
      (w', if ok then log + [r] else log)
  }

  ghost predicate InOrder(requests: seq<Request>) {
    forall i, j :: 0 <= i < j < |requests| ==> requests[i].now <= requests[j].now
  }

  /** The times at which a key was admitted. */
  function TimesOf(log: seq<Request>, key: string): seq<int> {
    if log == [] then []
    else
      var last := log[|log| - 1];
      TimesOf(log[..|log| - 1], key) + (if last.key == key then [last.now] else [])
  }

  /** How many of some times lie in (from, to]. */
  function CountBetween(times: seq<int>, from: int, to: int): nat {
    if times == [] then 0
    else
      var last := times[|times| - 1];
      CountBetween(times[..|times| - 1], from, to) + (if from < last <= to then 1 else 0)
  }

  /** In order, and none after `now`. */
  predicate UpTo(times: seq<int>, now: int) {
    times == [] || (times[|times| - 1] <= now && UpTo(times[..|times| - 1], times[|times| - 1]))
  }

  /** Admissions of a key in the window that ends at `t`. */
  function InWindow(l: Limits, log: seq<Request>, key: string, t: int): nat {
    CountBetween(TimesOf(log, key), t - l.win, t)
  }

  ghost predicate AtMost(l: Limits, log: seq<Request>) {
    forall key, t :: InWindow(l, log, key, t) <= l.max
  }

  /** For every key, what the map still holds of the recent past is what was admitted in it. */
  ghost predicate Agree(w: Window, log: seq<Request>, cutoff: int) {
    forall k :: Later(TimesIn(w, k), cutoff) == Later(TimesOf(log, k), cutoff)
  }

  ghost predicate LogUpTo(log: seq<Request>, now: int) {
    forall k :: UpTo(TimesOf(log, k), now)
  }

  ghost predicate WindowUpTo(w: Window, now: int) {
    forall k :: k in w ==> UpTo(w[k], now)
  }

  ghost predicate Inv(l: Limits, w: Window, log: seq<Request>, now: int) {
    && WindowUpTo(w, now)
    && LogUpTo(log, now)
    && Agree(w, log, now - l.win)
    && AtMost(l, log)
    && |w| <= MAX_KEYS
  }

  lemma {:induction false} LaterLater(times: seq<int>, early: int, late: int)
    requires early <= late
    ensures Later(Later(times, early), late) == Later(times, late)
  {
    if times != [] {
      var init, last := times[..|times| - 1], times[|times| - 1];
      LaterLater(init, early, late);
      var kept := Later(init, early);
      assert (kept + [last])[..|kept|] == kept;
      assert kept + [] == kept;
    }
  }

  lemma {:induction false} LaterUpTo(times: seq<int>, cutoff: int, now: int)
    requires UpTo(times, now)
    ensures UpTo(Later(times, cutoff), now)
    ensures times != [] && times[|times| - 1] <= cutoff ==> Later(times, cutoff) == []
  {
    if times != [] {
      var init, last := times[..|times| - 1], times[|times| - 1];
      LaterUpTo(init, cutoff, last);
      var kept := Later(init, cutoff);
      assert (kept + [last])[..|kept|] == kept;
      assert kept + [] == kept;
      if init == [] {
        assert kept == [];
      }
    }
  }

  lemma {:induction false} CountIsLater(times: seq<int>, from: int, to: int)
    ensures CountBetween(times, from, to) <= |Later(times, from)|
  {
    if times != [] {
      CountIsLater(times[..|times| - 1], from, to);
    }
  }

  lemma LaterOfMore(times: seq<int>, t: int, cutoff: int)
    ensures Later(times + [t], cutoff) == Later(times, cutoff) + (if t > cutoff then [t] else [])
    ensures CountBetween(times + [t], cutoff, t - 1) == CountBetween(times, cutoff, t - 1)
  {
    assert (times + [t])[..|times|] == times;
  }

  lemma TimesOfMore(log: seq<Request>, r: Request, key: string)
    ensures TimesOf(log + [r], key) == TimesOf(log, key) + (if r.key == key then [r.now] else [])
  {
    assert (log + [r])[..|log|] == log;
  }

  lemma CountOfMore(times: seq<int>, t: int, from: int, to: int)
    ensures CountBetween(times + [t], from, to) == CountBetween(times, from, to) + (if from < t <= to then 1 else 0)
  {
    assert (times + [t])[..|times|] == times;
  }

  /** Admitting a key whose window is not full keeps every window within the limit. */
  lemma AdmitKeepsLimit(l: Limits, log: seq<Request>, r: Request)
    requires l.win >= 0 && AtMost(l, log) && |Later(TimesOf(log, r.key), r.now - l.win)| < l.max
    ensures AtMost(l, log + [r])
  {
    hide CountBetween, Later, TimesOf;
    forall key, t ensures InWindow(l, log + [r], key, t) <= l.max {
      TimesOfMore(log, r, key);
      var times := TimesOf(log, key);
      assert InWindow(l, log, key, t) <= l.max;
      if r.key == key {
        CountOfMore(times, r.now, t - l.win, t);
        if t >= r.now {
          CountIsLater(times, t - l.win, t);
          LaterLater(times, r.now - l.win, t - l.win);
        }
      } else {
        assert times + [] == times;
      }
    }
  }

  /** As time passes, the map and the log still agree on what is recent. */
  lemma AgreeLater(w: Window, log: seq<Request>, early: int, late: int)
    requires Agree(w, log, early) && early <= late
    ensures Agree(w, log, late)
  {
    forall k ensures Later(TimesIn(w, k), late) == Later(TimesOf(log, k), late) {
      LaterLater(TimesIn(w, k), early, late);
      LaterLater(TimesOf(log, k), early, late);
    }
  }

  /** Dropping idle keys forgets nothing recent. */
  lemma AgreeWithoutIdle(l: Limits, w: Window, log: seq<Request>, before: int, now: int)
    requires Agree(w, log, now - l.win) && WindowUpTo(w, before)
    ensures Agree(WithoutIdle(w, l, now), log, now - l.win)
  {
    hide TimesOf;
    var w1 := WithoutIdle(w, l, now);
    forall k ensures Later(TimesIn(w1, k), now - l.win) == Later(TimesOf(log, k), now - l.win) {
      assert Later(TimesIn(w, k), now - l.win) == Later(TimesOf(log, k), now - l.win);
      if k in w && k !in w1 {
        LaterUpTo(w[k], now - l.win, before);
      }
    }
  }

  /** Compacting one key's times and perhaps adding the request to both sides. */
  lemma AgreeAfter(w: Window, log: seq<Request>, r: Request, cutoff: int, ok: bool)
    requires Agree(w, log, cutoff) && cutoff <= r.now
    ensures var kept := Later(TimesIn(w, r.key), cutoff);
      Agree(w[r.key := if ok then kept + [r.now] else kept], if ok then log + [r] else log, cutoff)
  {
    hide TimesOf, Later;
    var kept := Later(TimesIn(w, r.key), cutoff);
    var w' := w[r.key := if ok then kept + [r.now] else kept];
    var log' := if ok then log + [r] else log;
    forall k ensures Later(TimesIn(w', k), cutoff) == Later(TimesOf(log', k), cutoff) {
      assert Later(TimesIn(w, k), cutoff) == Later(TimesOf(log, k), cutoff);
      TimesOfMore(log, r, k);
      assert TimesOf(log, k) + [] == TimesOf(log, k);
      if k == r.key {
        LaterLater(TimesIn(w, k), cutoff, cutoff);
        LaterOfMore(kept, r.now, cutoff);
        LaterOfMore(TimesOf(log, k), r.now, cutoff);
      }
    }
  }

  lemma LogUpToMore(log: seq<Request>, before: int, r: Request)
    requires LogUpTo(log, before) && before <= r.now
    ensures LogUpTo(log, r.now) && LogUpTo(log + [r], r.now)
  {
    hide UpTo, TimesOf;
    forall k ensures UpTo(TimesOf(log, k), r.now) && UpTo(TimesOf(log + [r], k), r.now) {
      UpToLater(TimesOf(log, k), before, r.now);
      TimesOfMore(log, r, k);
      assert TimesOf(log, k) + [] == TimesOf(log, k);
      UpToMore(TimesOf(log, k), r.now);
    }
  }

  lemma CleanKeepsInv(l: Limits, w: Window, log: seq<Request>, now: int)
    requires Inv(l, w, log, now)
    ensures Inv(l, WithoutIdle(w, l, now), log, now)
  {
    hide AtMost, Agree, LogUpTo;
    AgreeWithoutIdle(l, w, log, now, now);
    Shrinks(WithoutIdle(w, l, now).Keys, w.Keys);
  }

  /** The part of a call after the clean-up, as a function of its own. */
  function Recorded(l: Limits, w: Window, key: string, now: int): (bool, Window) {
    var kept := Later(TimesIn(w, key), now - l.win);
    if |kept| >= l.max then (false, w[key := kept]) else (true, w[key := kept + [now]])
  }

  lemma RecordKeepsInv(l: Limits, w: Window, log: seq<Request>, r: Request)
    requires l.win >= 0 && Inv(l, w, log, r.now) && (r.key in w || |w| < MAX_KEYS)
    ensures var (ok, w') := Recorded(l, w, r.key, r.now);
      Inv(l, w', if ok then log + [r] else log, r.now)
  {
    hide AtMost, Later, TimesOf, Agree, UpTo, LogUpTo, TimesIn, WindowUpTo;
    var (ok, w') := Recorded(l, w, r.key, r.now);
    var cutoff := r.now - l.win;
    AgreeAfter(w, log, r, cutoff, ok);
    LogUpToMore(log, r.now, r);
    var kept := Later(TimesIn(w, r.key), cutoff);
    TimesUpTo(w, r.key, r.now);
    LaterUpTo(TimesIn(w, r.key), cutoff, r.now);
    UpToMore(kept, r.now);
    PutUpTo(w, r.key, if ok then kept + [r.now] else kept, r.now);
    if ok {
      AgreeAt(w, log, cutoff, r.key);
      AdmitKeepsLimit(l, log, r);
    }
  }

  lemma PutUpTo(w: Window, key: string, times: seq<int>, now: int)
    requires WindowUpTo(w, now) && UpTo(times, now)
    ensures WindowUpTo(w[key := times], now)
    ensures |w[key := times]| == if key in w then |w| else |w| + 1
  {
    hide UpTo;
    assert w[key := times].Keys == w.Keys + {key};
  }

  lemma AllowedKeepsInv(l: Limits, w: Window, log: seq<Request>, before: int, r: Request)
    requires l.win >= 0 && Inv(l, w, log, before) && before <= r.now
    ensures var (ok, w') := Allowed(l, w, r.key, r.now);
      Inv(l, w', if ok then log + [r] else log, r.now)
  {
    hide Inv, Later, WithoutIdle, TimesIn;
    InvLater(l, w, log, before, r.now);
    var w1 := if r.key in w then w else WithoutIdle(w, l, r.now);
    if r.key !in w {
      CleanKeepsInv(l, w, log, r.now);
    }
    if r.key in w1 || |w1| < MAX_KEYS {
      RecordKeepsInv(l, w1, log, r);
    }
  }

  lemma AgreeAt(w: Window, log: seq<Request>, cutoff: int, key: string)
    requires Agree(w, log, cutoff)
    ensures Later(TimesIn(w, key), cutoff) == Later(TimesOf(log, key), cutoff)
  {
  }

  lemma {:induction false} RunKeepsInv(l: Limits, requests: seq<Request>, now: int)
    requires l.win >= 0 && l.max >= 0 && InOrder(requests)
    requires forall i :: 0 <= i < |requests| ==> requests[i].now <= now
    ensures var (w, log) := Run(l, requests); Inv(l, w, log, now)
  {
    hide Allowed, Inv;
    if requests == [] {
      StartIsOk(l, now);
    } else {
      var init, r := requests[..|requests| - 1], requests[|requests| - 1];
      RunKeepsInv(l, init, r.now);
      var (w, log) := Run(l, init);
      AllowedKeepsInv(l, w, log, r.now, r);
      var (w', log') := Run(l, requests);
      InvLater(l, w', log', r.now, now);
    }
  }

  lemma StartIsOk(l: Limits, now: int)
    requires l.max >= 0
    ensures Inv(l, map[], [], now)
  {
  }

  lemma InvLater(l: Limits, w: Window, log: seq<Request>, before: int, now: int)
    requires Inv(l, w, log, before) && before <= now
    ensures Inv(l, w, log, now)
  {
    hide AtMost, Agree, UpTo, TimesOf;
    forall k ensures UpTo(TimesOf(log, k), now) && (k in w ==> UpTo(w[k], now)) {
      UpToLater(TimesOf(log, k), before, now);
      if k in w {
        UpToLater(w[k], before, now);
      }
    }
    AgreeLater(w, log, before - l.win, now - l.win);
  }

  /** Over any requests in time order: no key is admitted more than `max` times in any window of length
      `win`, and the map never holds more than 10000 keys. */
  lemma NoWindowExceedsMax(l: Limits, requests: seq<Request>, key: string, t: int)
    requires l.win >= 0 && l.max >= 0 && InOrder(requests)
    ensures var (w, log) := Run(l, requests); InWindow(l, log, key, t) <= l.max && |w| <= 10000
  {
    hide Run, InWindow;
    var now := if requests == [] then 0 else requests[|requests| - 1].now;
    RunKeepsInv(l, requests, now);
  }

  /** Keys with an admission in the window that ends now. */
  ghost function ActiveIn(w: Window, l: Limits, now: int): set<string> {
    set k | k in w && !Idle(w[k], l, now)
  }

  /** A request is refused exactly when its key was admitted `max` times in the window that ends with
      it, or when it is new to the map and 10000 other keys were each admitted in that window. */
  lemma RefusedOnlyWhenFull(l: Limits, w: Window, log: seq<Request>, before: int, r: Request)
    requires l.win >= 0 && Inv(l, w, log, before) && before <= r.now
    ensures !Allowed(l, w, r.key, r.now).0 <==>
      InWindow(l, log, r.key, r.now) >= l.max || (r.key !in w && |ActiveIn(w, l, r.now)| >= 10000)
    ensures forall k :: k in ActiveIn(w, l, r.now) ==> InWindow(l, log, k, r.now) > 0
  {
    hide AtMost, TimesOf, Later, Agree;
    var cutoff := r.now - l.win;
    AgreeLater(w, log, before - l.win, cutoff);
    AgreeWithoutIdle(l, w, log, before, r.now);
    var w1 := if r.key in w then w else WithoutIdle(w, l, r.now);
    AgreeAt(w1, log, cutoff, r.key);
    UpToLater(TimesOf(log, r.key), before, r.now);
    CountIsExactlyLater(TimesOf(log, r.key), cutoff, r.now);
    assert WithoutIdle(w, l, r.now).Keys == ActiveIn(w, l, r.now);
    forall k | k in ActiveIn(w, l, r.now) ensures InWindow(l, log, k, r.now) > 0 {
      AgreeAt(w, log, cutoff, k);
      UpToLater(TimesOf(log, k), before, r.now);
      CountIsExactlyLater(TimesOf(log, k), cutoff, r.now);
      LastIsLater(w[k], cutoff);
    }
  }

  /** So it is after any requests in time order. */
  lemma RefusedAfterRun(l: Limits, requests: seq<Request>, r: Request)
    requires l.win >= 0 && l.max >= 0 && InOrder(requests)
    requires forall i :: 0 <= i < |requests| ==> requests[i].now <= r.now
    ensures var (w, log) := Run(l, requests);
      (!Allowed(l, w, r.key, r.now).0 <==>
         InWindow(l, log, r.key, r.now) >= l.max || (r.key !in w && |ActiveIn(w, l, r.now)| >= 10000))
      && forall k :: k in ActiveIn(w, l, r.now) ==> InWindow(l, log, k, r.now) > 0
  {
    hide Run, Inv, Allowed, InWindow, ActiveIn;
    RunKeepsInv(l, requests, r.now);
    var (w, log) := Run(l, requests);
    RefusedOnlyWhenFull(l, w, log, r.now, r);
  }

  lemma LastIsLater(times: seq<int>, cutoff: int)
    requires times != [] && times[|times| - 1] > cutoff
    ensures |Later(times, cutoff)| > 0
  {
  }

  lemma {:induction false} CountIsExactlyLater(times: seq<int>, from: int, to: int)
    requires UpTo(times, to)
    ensures CountBetween(times, from, to) == |Later(times, from)|
  {
    if times != [] {
      var init, last := times[..|times| - 1], times[|times| - 1];
      UpToLater(init, last, to);
      CountIsExactlyLater(init, from, to);
    }
  }

  lemma UpToMore(times: seq<int>, now: int)
    requires UpTo(times, now)
    ensures UpTo(times + [now], now)
  {
    assert (times + [now])[..|times|] == times;
  }

  lemma UpToLater(times: seq<int>, early: int, late: int)
    requires UpTo(times, early) && early <= late
    ensures UpTo(times, late)
  {
  }

  lemma TimesUpTo(w: Window, key: string, now: int)
    requires WindowUpTo(w, now)
    ensures UpTo(TimesIn(w, key), now)
  {
  }
}
