/**
 The sliding-window rate limiter of internal/ratelimit/limiter.go.

 `History` is the unbounded record of everything ever admitted, with the limit that was in
 force at each admission. The class keeps only pruned windows; it is proved to give the
 answers the full history gives. Who is admitted, and the bound on every window, is also said
 of the calls alone.
 */
module Limiter {
  import opened Runs

  /** The admissions of one key, newest first. */
  datatype Log = Empty | Admitted(time: int, limit: int, older: Log)

  /** Everything the limiter has done: all admissions per key, the limits set, the clock. */
  datatype History = History(logs: map<string, Log>, userLimits: map<string, int>, now: int)

  datatype Config = Config(limit: int, window: int)

  datatype Op =
    | AllowAt(key: string, time: int)
    | SetLimit(user: string, limit: int)
    | CleanupAt(time: int)

  function LogOf(h: History, key: string): Log {
    if key in h.logs then h.logs[key] else Empty
  }

  /** How many admissions happened at or after a moment. */
  function CountSince(log: Log, cutoff: int): nat {
    match log
    case Empty => 0
    case Admitted(t, _, older) => CountSince(older, cutoff) + if t >= cutoff then 1 else 0
  }

  function EffectiveLimit(c: Config, userLimits: map<string, int>, key: string): int {
    if key in userLimits then userLimits[key] else c.limit
  }

  /** Admit when fewer than the limit of all past admissions lie in the window before now. */
  predicate Admits(c: Config, h: History, key: string, now: int) {
    CountSince(LogOf(h, key), now - c.window) < EffectiveLimit(c, h.userLimits, key)
  }

  function Apply(c: Config, h: History, op: Op): History {
    match op
    case AllowAt(key, t) =>
      if Admits(c, h, key, t)
      then h.(logs := h.logs[key := Admitted(t, EffectiveLimit(c, h.userLimits, key), LogOf(h, key))], now := t)
      else h.(now := t)
    case SetLimit(user, limit) =>
      if limit <= 0 then h.(userLimits := h.userLimits - {user})
      else h.(userLimits := h.userLimits[user := limit])
    case CleanupAt(t) => h.(now := t)
  }

  /** The history after a sequence of calls, starting with nothing admitted. */
  function After(c: Config, start: int, calls: Calls<Op>): History {
    match calls
    case NoCalls => History(map[], map[], start)
    case Then(before, op) => Apply(c, After(c, start, before), op)
  }

  predicate Timely(h: History, op: Op) {
    op.SetLimit? || h.now <= op.time
  }

  /** The clock of the calls never goes back. */
  predicate IsRun(c: Config, start: int, calls: Calls<Op>) {
    match calls
    case NoCalls => true
    case Then(before, op) => IsRun(c, start, before) && Timely(After(c, start, before), op)
  }

  // ---------------------------------------------------------------- the window bound

  /** A log in order of time, in which each admission found room under its limit. */
  predicate SoundLog(c: Config, log: Log, now: int) {
    match log
    case Empty => true
    case Admitted(t, limit, older) =>
      t <= now && SoundLog(c, older, t) && CountSince(older, t - c.window) < limit
  }

  lemma LaterIsSound(c: Config, log: Log, now: int, later: int)
    requires SoundLog(c, log, now) && now <= later
    ensures SoundLog(c, log, later)
  {
  }

  /** Every log of every run is sound. */
  lemma {:induction false} RunIsSound(c: Config, start: int, calls: Calls<Op>, key: string)
    requires IsRun(c, start, calls)
    ensures SoundLog(c, LogOf(After(c, start, calls), key), After(c, start, calls).now)
  {
    match calls
    case NoCalls =>
    case Then(before, op) =>
      RunIsSound(c, start, before, key);
      var h := After(c, start, before);
      LaterIsSound(c, LogOf(h, key), h.now, Apply(c, h, op).now);
  }

  // ---------------------------------------------------------------- the calls alone

  /** The last limit set for the key, when there is one and it is positive; else the default. */
  function LimitInForce(c: Config, calls: Calls<Op>, key: string): int {
    match calls
    case NoCalls => c.limit
    case Then(before, op) =>
      if op.SetLimit? && op.user == key then (if op.limit > 0 then op.limit else c.limit)
      else LimitInForce(c, before, key)
  }

  function AdmissionsSince(c: Config, calls: Calls<Op>, key: string, from: int): nat
    decreases calls, 0
  {
    match calls
    case NoCalls => 0
    case Then(before, op) =>
      AdmissionsSince(c, before, key, from) + if IsAdmission(c, before, op, key) && from <= op.time then 1 else 0
  }

  /** A request is admitted when fewer requests of the key than its limit were admitted in the
      window before. */
  predicate IsAdmission(c: Config, before: Calls<Op>, op: Op, key: string)
    decreases before, 1
  {
    && op.AllowAt? && op.key == key
    && AdmissionsSince(c, before, key, op.time - c.window) < LimitInForce(c, before, key)
  }

  predicate MayPass(c: Config, calls: Calls<Op>, key: string, now: int) {
    AdmissionsSince(c, calls, key, now - c.window) < LimitInForce(c, calls, key)
  }

  /** How many were admitted in the closed interval, and the limit in force at the last of them. */
  function AdmissionsIn(c: Config, calls: Calls<Op>, key: string, from: int, to: int): nat {
    match calls
    case NoCalls => 0
    case Then(before, op) =>
      AdmissionsIn(c, before, key, from, to) + if IsAdmission(c, before, op, key) && from <= op.time <= to then 1 else 0
  }

  function LimitAtLast(c: Config, calls: Calls<Op>, key: string, from: int, to: int): int {
    match calls
    case NoCalls => 0
    case Then(before, op) =>
      if IsAdmission(c, before, op, key) && from <= op.time <= to then LimitInForce(c, before, key)
      else LimitAtLast(c, before, key, from, to)
  }

  /** What the history says is what the calls say: its limit is the one in force, its log counts
      the admissions, and it admits exactly when fewer than that limit lie in the window. */
  lemma {:induction false} HistoryTellsCalls(c: Config, start: int, calls: Calls<Op>, key: string, from: int)
    ensures var h := After(c, start, calls);
      && EffectiveLimit(c, h.userLimits, key) == LimitInForce(c, calls, key)
      && CountSince(LogOf(h, key), from) == AdmissionsSince(c, calls, key, from)
      && (Admits(c, h, key, from + c.window) <==> AdmissionsSince(c, calls, key, from) < LimitInForce(c, calls, key))
  {
    match calls
    case NoCalls =>
    case Then(before, op) =>
      HistoryTellsCalls(c, start, before, key, from);
      if op.AllowAt? { HistoryTellsCalls(c, start, before, key, op.time - c.window); }
  }

  lemma {:induction false} InAtMostSince(c: Config, calls: Calls<Op>, key: string, from: int, to: int, cutoff: int)
    requires cutoff <= from
    ensures AdmissionsIn(c, calls, key, from, to) <= AdmissionsSince(c, calls, key, cutoff)
  {
    if calls.Then? { InAtMostSince(c, calls.before, key, from, to, cutoff); }
  }

  /** Whatever calls were made, in whatever order: every closed interval as long as the window
      holds at most as many admissions of a key as the limit in force at the last of them. */
  lemma {:induction false} WindowBound(c: Config, calls: Calls<Op>, key: string, from: int)
    ensures AdmissionsIn(c, calls, key, from, from + c.window) <= LimitAtLast(c, calls, key, from, from + c.window)
  {
    if calls.Then? {
      WindowBound(c, calls.before, key, from);
      if IsAdmission(c, calls.before, calls.op, key) && from <= calls.op.time <= from + c.window {
        InAtMostSince(c, calls.before, key, from, from + c.window, calls.op.time - c.window);
      }
    }
  }

  /** The window is closed: with one request allowed, a second one passes only when more than the
      window has gone by. */
  lemma SecondRequest(key: string, window: int, t: int, u: int)
    requires 0 <= window && t <= u
    ensures MayPass(Config(1, window), NoCalls, key, t)
    ensures MayPass(Config(1, window), Then(NoCalls, AllowAt(key, t)), key, u) <==> u - t > window
  {
    var c, none := Config(1, window), NoCalls;
    assert IsAdmission(c, none, AllowAt(key, t), key);
    assert AdmissionsSince(c, none, key, u - window) == 0;
  }

  // ---------------------------------------------------------------- pruned windows

  function Lookup(windows: map<string, seq<int>>, key: string): seq<int> {
    if key in windows then windows[key] else []
  }

  predicate AllBefore(log: Log, moment: int) {
    log.Admitted? ==> log.time < moment && AllBefore(log.older, moment)
  }

  /** The timestamps ts[k..n] are the newest admissions of the log; what they lack is too old to
      count ever again. */
  predicate Newest(ts: seq<int>, k: nat, n: nat, log: Log, oldest: int)
    requires k <= n <= |ts|
  {
    if k == n then AllBefore(log, oldest)
    else log.Admitted? && ts[n - 1] == log.time && Newest(ts, k, n - 1, log.older, oldest)
  }

  predicate IsPruned(ts: seq<int>, log: Log, oldest: int) { Newest(ts, 0, |ts|, log, oldest) }

  function CountTimes(ts: seq<int>, n: nat, cutoff: int): nat
    requires n <= |ts|
  {
    if n == 0 then 0 else CountTimes(ts, n - 1, cutoff) + if ts[n - 1] >= cutoff then 1 else 0
  }

  lemma {:induction false} LaterAllBefore(log: Log, oldest: int, later: int)
    requires AllBefore(log, oldest) && oldest <= later
    ensures AllBefore(log, later)
  {
    if log.Admitted? { LaterAllBefore(log.older, oldest, later); }
  }

  lemma {:induction false} NothingSince(log: Log, cutoff: int)
    requires AllBefore(log, cutoff)
    ensures CountSince(log, cutoff) == 0
  {
    if log.Admitted? { NothingSince(log.older, cutoff); }
  }

  /** Counting in the pruned window is counting in the full log. */
  lemma {:induction false} PrunedCounts(ts: seq<int>, n: nat, log: Log, oldest: int, cutoff: int)
    requires n <= |ts| && Newest(ts, 0, n, log, oldest) && oldest <= cutoff
    ensures CountTimes(ts, n, cutoff) == CountSince(log, cutoff)
  {
    if n == 0 {
      LaterAllBefore(log, oldest, cutoff);
      NothingSince(log, cutoff);
    } else {
      PrunedCounts(ts, n - 1, log.older, oldest, cutoff);
    }
  }

  /** Leaving out a prefix that is too old leaves the newest admissions. */
  lemma {:induction false} PrefixExpires(ts: seq<int>, k: nat, n: nat, log: Log, oldest: int, cutoff: int)
    requires k <= n <= |ts| && Newest(ts, 0, n, log, oldest) && oldest <= cutoff
    requires forall i | 0 <= i < k :: ts[i] < cutoff
    ensures Newest(ts, k, n, log, cutoff)
  {
    if n == 0 {
      LaterAllBefore(log, oldest, cutoff);
    } else if k == n {
      PrefixExpires(ts, k - 1, n - 1, log.older, oldest, cutoff);
    } else {
      PrefixExpires(ts, k, n - 1, log.older, oldest, cutoff);
    }
  }

  lemma {:induction false} NewestMoves(ts: seq<int>, k: nat, n: nat, us: seq<int>, j: nat, log: Log, oldest: int)
    requires k <= n <= |ts| && j + (n - k) <= |us| && Newest(ts, k, n, log, oldest)
    requires forall i | k <= i < n :: us[j + i - k] == ts[i]
    ensures Newest(us, j, j + (n - k), log, oldest)
    decreases n
  {
    if k < n {
      NewestMoves(ts, k, n - 1, us, j, log.older, oldest);
    }
  }

  lemma TrimmedIsPruned(ts: seq<int>, k: nat, log: Log, oldest: int, cutoff: int)
    requires k <= |ts| && IsPruned(ts, log, oldest) && oldest <= cutoff
    requires forall i | 0 <= i < k :: ts[i] < cutoff
    ensures IsPruned(ts[k..], log, cutoff)
  {
    PrefixExpires(ts, k, |ts|, log, oldest, cutoff);
    NewestMoves(ts, k, |ts|, ts[k..], 0, log, cutoff);
  }

  lemma PrunedGrows(ts: seq<int>, log: Log, cutoff: int, t: int, limit: int)
    requires IsPruned(ts, log, cutoff)
    ensures IsPruned(ts + [t], Admitted(t, limit, log), cutoff)
  {
    NewestMoves(ts, 0, |ts|, ts + [t], 0, log, cutoff);
  }

  /** When the oldest timestamp kept lies in the window, all of them do: the log is in order. */
  lemma {:induction false} AllCount(c: Config, ts: seq<int>, n: nat, log: Log, oldest: int, now: int, cutoff: int)
    requires n <= |ts| && Newest(ts, 0, n, log, oldest) && SoundLog(c, log, now)
    requires n > 0 ==> ts[0] >= cutoff
    ensures CountTimes(ts, n, cutoff) == n && (n > 0 ==> cutoff <= log.time)
  {
    if n > 0 { AllCount(c, ts, n - 1, log.older, oldest, log.time, cutoff); }
  }

  ghost predicate AllPruned(windows: map<string, seq<int>>, h: History, oldest: int) {
    forall key :: IsPruned(Lookup(windows, key), LogOf(h, key), oldest)
  }

  /** Replacing one window, when the other logs stay as they are. */
  lemma OneWindowChanges(before: map<string, seq<int>>, after: map<string, seq<int>>, h: History, h': History,
                         key: string, oldest: int, later: int)
    requires AllPruned(before, h, oldest) && oldest <= later
    requires forall k | k != key :: Lookup(after, k) == Lookup(before, k) && LogOf(h', k) == LogOf(h, k)
    requires IsPruned(Lookup(after, key), LogOf(h', key), later)
    ensures AllPruned(after, h', later)
  {
    forall k ensures IsPruned(Lookup(after, k), LogOf(h', k), later) {
      if k != key {
        assert IsPruned(Lookup(before, k), LogOf(h, k), oldest);
        PrefixExpires(Lookup(before, k), 0, |Lookup(before, k)|, LogOf(h, k), oldest, later);
      }
    }
  }

  /** One call of Allow, on values: what is left after trimming is counted against the limit. */
  lemma AllowIsSound(c: Config, windows: map<string, seq<int>>, h: History, key: string, now: int, expired: nat)
    requires AllPruned(windows, h, h.now - c.window) && SoundLog(c, LogOf(h, key), h.now) && h.now <= now
    requires expired <= |Lookup(windows, key)|
    requires forall i | 0 <= i < expired :: Lookup(windows, key)[i] < now - c.window
    requires expired < |Lookup(windows, key)| ==> Lookup(windows, key)[expired] >= now - c.window
    ensures var kept := Lookup(windows, key)[expired..];
      var h' := Apply(c, h, AllowAt(key, now));
      && (Admits(c, h, key, now) <==> |kept| < EffectiveLimit(c, h.userLimits, key))
      && (Admits(c, h, key, now) ==> AllPruned(windows[key := kept + [now]], h', now - c.window))
      && (!Admits(c, h, key, now) ==> AllPruned(windows[key := kept], h', now - c.window))
  {
    var oldest, cutoff := h.now - c.window, now - c.window;
    var ts, log, h' := Lookup(windows, key), LogOf(h, key), Apply(c, h, AllowAt(key, now));
    assert IsPruned(ts, log, oldest);
    TrimmedIsPruned(ts, expired, log, oldest, cutoff);
    var kept := ts[expired..];
    AllCount(c, kept, |kept|, log, cutoff, h.now, cutoff);
    PrunedCounts(kept, |kept|, log, cutoff, cutoff);
    if Admits(c, h, key, now) {
      PrunedGrows(kept, log, cutoff, now, EffectiveLimit(c, h.userLimits, key));
      OneWindowChanges(windows, windows[key := kept + [now]], h, h', key, oldest, cutoff);
    } else {
      OneWindowChanges(windows, windows[key := kept], h, h', key, oldest, cutoff);
    }
  }

  /** So the trimmed length decides as the calls alone do. */
  lemma AllowDecides(c: Config, start: int, calls: Calls<Op>, windows: map<string, seq<int>>,
                     key: string, now: int, expired: nat)
    requires var h := After(c, start, calls); AllPruned(windows, h, h.now - c.window) && h.now <= now
    requires IsRun(c, start, calls) && expired <= |Lookup(windows, key)|
    requires forall i | 0 <= i < expired :: Lookup(windows, key)[i] < now - c.window
    requires expired < |Lookup(windows, key)| ==> Lookup(windows, key)[expired] >= now - c.window
    ensures var h, kept := After(c, start, calls), Lookup(windows, key)[expired..];
      var h' := Apply(c, h, AllowAt(key, now));
      && (MayPass(c, calls, key, now) <==> |kept| < EffectiveLimit(c, h.userLimits, key))
      && AllPruned(windows[key := if MayPass(c, calls, key, now) then kept + [now] else kept], h', now - c.window)
  {
    RunIsSound(c, start, calls, key);
    HistoryTellsCalls(c, start, calls, key, now - c.window);
    AllowIsSound(c, windows, After(c, start, calls), key, now, expired);
  }

  /** A window trimmed by the cleanup loop; an empty one is forgotten. */
  function Cleaned(windows: map<string, seq<int>>, key: string, expired: nat): map<string, seq<int>>
    requires key in windows && expired <= |windows[key]|
  {
    var kept := windows[key][expired..];
    if |kept| == 0 then windows - {key} else windows[key := kept]
  }

  lemma CleanedWindow(windows: map<string, seq<int>>, h: History, key: string, expired: nat, cutoff: int)
    requires AllPruned(windows, h, cutoff) && key in windows
    requires expired <= |windows[key]| && forall i | 0 <= i < expired :: windows[key][i] < cutoff
    ensures AllPruned(Cleaned(windows, key, expired), h, cutoff)
  {
    assert IsPruned(Lookup(windows, key), LogOf(h, key), cutoff);
    TrimmedIsPruned(windows[key], expired, LogOf(h, key), cutoff, cutoff);
    OneWindowChanges(windows, Cleaned(windows, key, expired), h, h, key, cutoff, cutoff);
  }

  /** Time passing keeps windows pruned. */
  lemma AgedWindows(windows: map<string, seq<int>>, h: History, h': History, oldest: int, later: int)
    requires AllPruned(windows, h, oldest) && oldest <= later && h'.logs == h.logs
    ensures AllPruned(windows, h', later)
  {
    forall k ensures IsPruned(Lookup(windows, k), LogOf(h', k), later) {
      assert IsPruned(Lookup(windows, k), LogOf(h, k), oldest);
      PrefixExpires(Lookup(windows, k), 0, |Lookup(windows, k)|, LogOf(h, k), oldest, later);
    }
  }

  class Limiter {
    var windows: map<string, seq<int>>
    var userLimits: map<string, int>
    const limit: int
    const window: int
    /** All calls made so far, and the moment the limiter was made. */
    ghost var calls: Calls<Op>
    ghost const start: int

    ghost function C(): Config { Config(limit, window) }

    /** What the calls made so far have admitted. */
    ghost function H(): History
      reads this
    {
      After(C(), start, calls)
    }

    ghost predicate Valid()
      reads this
    {
      && IsRun(C(), start, calls)
      && userLimits == H().userLimits
      && AllPruned(windows, H(), H().now - window)
    }

    constructor (limit: int, window: int, now: int)
      ensures Valid() && this.limit == limit && this.window == window
      ensures calls == NoCalls && start == now
    {
      this.limit, this.window := limit, window;
      windows, userLimits := map[], map[];
      start, calls := now, NoCalls;
    }

    /** How many entries at the front of a window lie before the cutoff. */
    method Expired(ts: seq<int>, cutoff: int) returns (n: nat)
      ensures n <= |ts| && forall i | 0 <= i < n :: ts[i] < cutoff
      ensures n < |ts| ==> ts[n] >= cutoff
    {
      n := 0;
      while n < |ts| && ts[n] < cutoff
        invariant n <= |ts| && forall i | 0 <= i < n :: ts[i] < cutoff
      {
        n := n + 1;
      }
    }

    /** Admits exactly when the full history leaves room, and records exactly that. */
    method Allow(key: string, now: int) returns (ok: bool)
      requires Valid() && H().now <= now
      modifies this
      ensures Valid() && userLimits == old(userLimits)
      ensures ok == old(MayPass(C(), calls, key, now))
      ensures calls == Then(old(calls), AllowAt(key, now))
    {
      var cutoff := now - window;
      var keyLimit := if key in userLimits then userLimits[key] else limit;
      var ts := if key in windows then windows[key] else [];
      var expired := Expired(ts, cutoff);
      AllowDecides(C(), start, calls, windows, key, now, expired);
      var kept := ts[expired..];
      calls := Then(calls, AllowAt(key, now));
      if |kept| >= keyLimit {
        windows := windows[key := kept];
        return false;
      }
      windows := windows[key := kept + [now]];
      return true;
    }

    /** What is left for a key: positive exactly when Allow would admit now. */
    method Remaining(key: string, now: int) returns (left: int)
      requires Valid() && H().now <= now
      ensures left == LimitInForce(C(), calls, key) - AdmissionsSince(C(), calls, key, now - window)
      ensures left > 0 <==> MayPass(C(), calls, key, now)
    {
      var cutoff := now - window;
      var keyLimit := if key in userLimits then userLimits[key] else limit;
      HistoryTellsCalls(C(), start, calls, key, cutoff);
      ghost var all := Lookup(windows, key);
      assert IsPruned(all, LogOf(H(), key), H().now - window);
      PrunedCounts(all, |all|, LogOf(H(), key), H().now - window, cutoff);
      if key !in windows {
        return keyLimit;
      }
      var ts := windows[key];
      var count := 0;
      for i := 0 to |ts|
        invariant count == CountTimes(ts, i, cutoff)
      {
        if ts[i] >= cutoff {
          count := count + 1;
        }
      }
      return keyLimit - count;
    }

    /** A limit that is not positive resets the key to the default. */
    method SetUserLimit(user: string, limit: int)
      requires Valid()
      modifies this`userLimits, this`calls
      ensures Valid() && calls == Then(old(calls), SetLimit(user, limit))
    {
      if limit <= 0 {
        userLimits := userLimits - {user};
      } else {
        userLimits := userLimits[user := limit];
      }
      ghost var h := H();
      calls := Then(calls, SetLimit(user, limit));
      AgedWindows(windows, h, H(), h.now - window, h.now - window);
    }

    /** The inner loop of cleanup, over every window once. */
    method TrimAll(all: map<string, seq<int>>, ghost h: History, cutoff: int) returns (ws: map<string, seq<int>>)
      requires AllPruned(all, h, cutoff)
      ensures AllPruned(ws, h, cutoff)
      ensures ws.Keys <= all.Keys && forall key | key in ws :: ws[key] != [] && ws[key][0] >= cutoff
    {
      ws := all;
      var todo := all.Keys;
      while todo != {}
        invariant todo <= ws.Keys <= all.Keys && AllPruned(ws, h, cutoff)
        invariant forall key | key in ws && key !in todo :: ws[key] != [] && ws[key][0] >= cutoff
        decreases |todo|
      {
        var key :| key in todo;
        var expired := Expired(ws[key], cutoff);
        CleanedWindow(ws, h, key, expired, cutoff);
        ws, todo := Cleaned(ws, key, expired), todo - {key};
      }
    }

    /** One round of the cleanup loop. Only the clock of the history moves, so no later answer
        changes, although windows are trimmed and empty ones forgotten. */
    method Cleanup(now: int)
      requires Valid() && H().now <= now
      modifies this`windows, this`calls
      ensures Valid() && calls == Then(old(calls), CleanupAt(now))
      ensures forall key | key in windows :: windows[key] != [] && windows[key][0] >= now - window
    {
      var cutoff := now - window;
      ghost var h := H();
      AgedWindows(windows, h, h, h.now - window, cutoff);
      windows := TrimAll(windows, h, cutoff);
      calls := Then(calls, CleanupAt(now));
      AgedWindows(windows, h, H(), cutoff, cutoff);
    }
  }

  /** The same calls as if the cleanup loop had never woken. */
  function WithoutCleanups(calls: Calls<Op>): Calls<Op> {
    match calls
    case NoCalls => NoCalls
    case Then(before, op) => if op.CleanupAt? then WithoutCleanups(before) else Then(WithoutCleanups(before), op)
  }

  /** Cleanup never changes an answer, in any run, however often and whenever it happens. */
  lemma {:induction false} CleanupsAreInvisible(c: Config, start: int, calls: Calls<Op>)
    ensures var h, h' := After(c, start, calls), After(c, start, WithoutCleanups(calls));
      && h.logs == h'.logs && h.userLimits == h'.userLimits
      && forall key, now :: Admits(c, h, key, now) <==> Admits(c, h', key, now)
  {
    match calls
    case NoCalls =>
    case Then(before, op) => CleanupsAreInvisible(c, start, before);
  }
}
