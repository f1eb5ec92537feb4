/**
 The automatic ban of internal/auth/ipban.go. Addresses are the host parts of the remote
 address; splitting off the port is not part of this model.

 `BanState` keeps every failure since an address was last reset; the class keeps the pruned
 lists of the program. A failure's clock is read before the lock is taken, so failures may be
 recorded late: nothing here asks for times in order, except where it says so.
 */
module IPBan {
  import opened Runs
  import opened Text

  /** The failures of an address in the order they were recorded, newest first. */
  datatype Failures = Clean | Failed(time: int, earlier: Failures)

  datatype Config = Config(threshold: int, window: int)

  datatype BanState = BanState(logs: map<string, Failures>, banned: map<string, int>, whitelist: set<string>)

  datatype Op =
    | Fail(ip: string, time: int)
    | Ask(ip: string, time: int)
    | Ban(ip: string, time: int)
    | Unban(ip: string)
    | Whitelist(ip: string)
    | Unlist(ip: string)

  function LogOf(s: BanState, ip: string): Failures {
    if ip in s.logs then s.logs[ip] else Clean
  }

  /** How many failures lie strictly after a moment. */
  function CountAfter(log: Failures, cutoff: int): nat {
    match log
    case Clean => 0
    case Failed(t, earlier) => CountAfter(earlier, cutoff) + if t > cutoff then 1 else 0
  }

  function Max(a: int, b: int): int { if a > b then a else b }

  /** How many failures lie after a moment and were dropped by none recorded after them: each
      one drops what is a window older than itself. */
  function Survivors(log: Failures, window: int, cutoff: int): nat {
    match log
    case Clean => 0
    case Failed(t, earlier) => Survivors(earlier, window, Max(cutoff, t - window)) + if t > cutoff then 1 else 0
  }

  /** What IsBanned answers. */
  predicate Reports(c: Config, s: BanState, ip: string, now: int) {
    ip !in s.whitelist && ip in s.banned && now - s.banned[ip] <= c.window
  }

  /** The calls after which earlier failures of an address no longer count. */
  predicate Resets(c: Config, s: BanState, op: Op, ip: string) {
    match op
    case Unban(i) => i == ip
    case Whitelist(i) => i == ip
    case Ask(i, t) => i == ip && ip !in s.whitelist && ip in s.banned && t - s.banned[ip] > c.window
    case _ => false
  }

  function Forget(s: BanState, ip: string): BanState {
    s.(banned := s.banned - {ip}, logs := s.logs - {ip})
  }

  function Apply(c: Config, s: BanState, op: Op): BanState {
    match op
    case Fail(ip, t) =>
      if ip in s.whitelist then s
      else
        var enough := Survivors(LogOf(s, ip), c.window, t - c.window) + 1 >= c.threshold;
        s.(logs := s.logs[ip := Failed(t, LogOf(s, ip))],
           banned := if enough then s.banned[ip := t] else s.banned)
    case Ask(ip, t) => if Resets(c, s, op, ip) then Forget(s, ip) else s
    case Ban(ip, t) => s.(banned := s.banned[ip := t])
    case Unban(ip) => Forget(s, ip)
    case Whitelist(ip) => Forget(s, ip).(whitelist := s.whitelist + {ip})
    case Unlist(ip) => s.(whitelist := s.whitelist - {ip})
  }

  function After(c: Config, calls: Calls<Op>): BanState {
    match calls
    case NoCalls => BanState(map[], map[], {})
    case Then(before, op) => Apply(c, After(c, before), op)
  }

  // ---------------------------------------------------------------- what survives

  lemma {:induction false} FewerLater(log: Failures, cutoff: int, later: int)
    requires cutoff <= later
    ensures CountAfter(log, later) <= CountAfter(log, cutoff)
  {
    if log.Failed? { FewerLater(log.earlier, cutoff, later); }
  }

  /** Never more than there are. */
  lemma {:induction false} SurvivorsAtMost(log: Failures, window: int, cutoff: int)
    ensures Survivors(log, window, cutoff) <= CountAfter(log, cutoff)
  {
    match log
    case Clean =>
    case Failed(t, earlier) =>
      SurvivorsAtMost(earlier, window, Max(cutoff, t - window));
      FewerLater(earlier, cutoff, Max(cutoff, t - window));
  }

  predicate NoneLater(log: Failures, moment: int) {
    log.Failed? ==> log.time <= moment && NoneLater(log.earlier, moment)
  }

  /** What is less than a window older than everything recorded has survived. */
  lemma {:induction false} SurvivorsAtLeast(log: Failures, window: int, cutoff: int, moment: int)
    requires NoneLater(log, moment) && cutoff <= moment - window
    ensures CountAfter(log, moment - window) <= Survivors(log, window, cutoff)
  {
    if log.Failed? { SurvivorsAtLeast(log.earlier, window, Max(cutoff, log.time - window), moment); }
  }

  /** The newest time among a failure and those before it. */
  function Newest(log: Failures, t: int): int {
    match log
    case Clean => t
    case Failed(u, earlier) => Newest(earlier, Max(t, u))
  }

  /** No failure was recorded a window or more late. */
  predicate Prompt(log: Failures, window: int) {
    match log
    case Clean => true
    case Failed(t, earlier) => Prompt(earlier, window) && NoneLater(earlier, t + window - 1)
  }

  lemma {:induction false} NewestIsBound(log: Failures, t: int, moment: int)
    ensures Newest(log, t) <= moment <==> t <= moment && NoneLater(log, moment)
  {
    if log.Failed? { NewestIsBound(log.earlier, Max(t, log.time), moment); }
  }

  lemma {:induction false} NoneAfterBound(log: Failures, moment: int)
    requires NoneLater(log, moment)
    ensures CountAfter(log, moment) == 0
  {
    if log.Failed? { NoneAfterBound(log.earlier, moment); }
  }

  lemma {:induction false} NewestGrows(log: Failures, t: int)
    ensures t <= Newest(log, t)
  {
    NewestIsBound(log, t, Newest(log, t));
  }

  lemma {:induction false} NoneLaterWeakens(log: Failures, moment: int, later: int)
    requires NoneLater(log, moment) && moment <= later
    ensures NoneLater(log, later)
  {
    if log.Failed? { NoneLaterWeakens(log.earlier, moment, later); }
  }

  lemma {:induction false} SurvivorsFrom(log: Failures, window: int, t: int)
    requires 0 < window && Prompt(log, window)
    ensures Survivors(log, window, t - window) == CountAfter(log, Newest(log, t) - window)
  {
    match log
    case Clean =>
    case Failed(u, earlier) =>
      var m := Newest(log, t);
      SurvivorsFrom(earlier, window, Max(t, u));
      NewestIsBound(earlier, Max(t, u), Max(t, u + window - 1));
      NewestGrows(earlier, Max(t, u));
  }

  /** If failures were recorded promptly, what survives is what lies within the window that ends
      with the newest of them. */
  lemma {:induction false} SurvivorsAreRecent(log: Failures, window: int, t: int)
    requires Prompt(log, window) && NoneLater(log, t + window - 1)
    ensures Survivors(log, window, t - window) == CountAfter(log, Newest(log, t) - window)
  {
    NewestIsBound(log, t, Newest(log, t));
    if window <= 0 {
      SurvivorsAtMost(log, window, t - window);
      NoneLaterWeakens(log, t + window - 1, t);
      NewestIsBound(log, t, t);
      NewestGrows(log, t);
      NoneLaterWeakens(log, t + window - 1, t - window);
      NoneAfterBound(log, t - window);
    } else if log.Failed? {
      SurvivorsFrom(log, window, t);
    }
  }

  /** Whether recording the failure bans the address now. */
  predicate Bans(c: Config, before: Calls<Op>, ip: string, t: int) {
    var s := After(c, before);
    ip !in s.whitelist && Survivors(LogOf(s, ip), c.window, t - c.window) + 1 >= c.threshold
  }

  lemma BansIsBanned(c: Config, before: Calls<Op>, ip: string, t: int)
    ensures var s, s' := After(c, before), After(c, Then(before, Fail(ip, t)));
      s'.banned == if Bans(c, before, ip, t) then s.banned[ip := t] else s.banned
  {
  }

  // ---------------------------------------------------------------- the calls alone

  /** Of the calls that list an address or take it off the list, the last one listed it. */
  predicate Listed(calls: Calls<Op>, ip: string) {
    match calls
    case NoCalls => false
    case Then(before, op) => op == Whitelist(ip) || (op != Unlist(ip) && Listed(before, ip))
  }

  /** The moment of the last ban, by hand or by a failure, that no call has ended since. */
  function BannedAt(c: Config, calls: Calls<Op>, ip: string): Option<int>
    decreases calls, 0
  {
    match calls
    case NoCalls => None
    case Then(before, op) =>
      if Lifts(c, before, op, ip) then None
      else if op.Ban? && op.ip == ip then Some(op.time)
      else if op.Fail? && op.ip == ip && Bans(c, before, ip, op.time) then Some(op.time)
      else BannedAt(c, before, ip)
  }

  /** A call that ends a ban: lifting it, listing the address, or asking about an address that is
      not listed more than a window after its ban. */
  predicate Lifts(c: Config, before: Calls<Op>, op: Op, ip: string)
    decreases before, 1
  {
    || op == Unban(ip) || op == Whitelist(ip)
    || (op.Ask? && op.ip == ip && !Listed(before, ip)
        && var at := BannedAt(c, before, ip); at.Some? && op.time - at.value > c.window)
  }

  /** The state holds what the calls say. */
  lemma {:induction false} StateTellsCalls(c: Config, calls: Calls<Op>, ip: string)
    ensures var s := After(c, calls);
      && (ip in s.whitelist <==> Listed(calls, ip))
      && (if ip in s.banned then Some(s.banned[ip]) else None) == BannedAt(c, calls, ip)
  {
    match calls
    case NoCalls =>
    case Then(before, op) =>
      StateTellsCalls(c, before, ip);
      if op.Fail? { BansIsBanned(c, before, op.ip, op.time); }
  }

  /** The address is not listed, and its last ban, not ended since, is at most a window old. */
  predicate InForce(c: Config, calls: Calls<Op>, ip: string, now: int) {
    var at := BannedAt(c, calls, ip);
    !Listed(calls, ip) && at.Some? && now - at.value <= c.window
  }

  lemma ReportedIff(c: Config, calls: Calls<Op>, ip: string, now: int)
    ensures Reports(c, After(c, calls), ip, now) <==> InForce(c, calls, ip, now)
  {
    StateTellsCalls(c, calls, ip);
  }

  /** How many failures of ip after a moment were recorded, while it was not listed, since a call
      last ended a ban of it. */
  function FailuresSinceReset(c: Config, calls: Calls<Op>, ip: string, moment: int): nat {
    match calls
    case NoCalls => 0
    case Then(before, op) =>
      if Lifts(c, before, op, ip) then 0
      else FailuresSinceReset(c, before, ip, moment)
           + if op.Fail? && op.ip == ip && !Listed(before, ip) && op.time > moment then 1 else 0
  }

  lemma {:induction false} LogCountsFailures(c: Config, calls: Calls<Op>, ip: string, moment: int)
    ensures CountAfter(LogOf(After(c, calls), ip), moment) == FailuresSinceReset(c, calls, ip, moment)
  {
    match calls
    case NoCalls =>
    case Then(before, op) =>
      LogCountsFailures(c, before, ip, moment);
      StateTellsCalls(c, before, ip);
  }

  /** Of all failures of ip ever recorded, none is later than a moment. */
  predicate NothingLater(calls: Calls<Op>, ip: string, moment: int) {
    calls.Then? ==>
      && NothingLater(calls.before, ip, moment)
      && (calls.op.Fail? && calls.op.ip == ip ==> calls.op.time <= moment)
  }

  /** No failure of ip was recorded a window or more late. */
  predicate InTime(c: Config, calls: Calls<Op>, ip: string) {
    calls.Then? ==>
      && InTime(c, calls.before, ip)
      && (calls.op.Fail? && calls.op.ip == ip ==> NothingLater(calls.before, ip, calls.op.time + c.window - 1))
  }

  lemma {:induction false} LogIsBound(c: Config, calls: Calls<Op>, ip: string, moment: int)
    requires NothingLater(calls, ip, moment)
    ensures NoneLater(LogOf(After(c, calls), ip), moment)
  {
    if calls.Then? { LogIsBound(c, calls.before, ip, moment); }
  }

  lemma {:induction false} LogIsPrompt(c: Config, calls: Calls<Op>, ip: string)
    requires InTime(c, calls, ip)
    ensures Prompt(LogOf(After(c, calls), ip), c.window)
  {
    if calls.Then? {
      LogIsPrompt(c, calls.before, ip);
      if calls.op.Fail? && calls.op.ip == ip { LogIsBound(c, calls.before, ip, calls.op.time + c.window - 1); }
    }
  }

  /** The end of the window that decides: the newest failure since the last reset. */
  function Latest(c: Config, calls: Calls<Op>, ip: string, t: int): int { Newest(LogOf(After(c, calls), ip), t) }

  /** A failure bans exactly when the address is not listed and, together with the failures since
      its last reset that lie in the window up to the newest one, it reaches the threshold;
      otherwise it leaves all bans as they were. Failures may be out of order, as long as none is
      recorded a window late. */
  lemma BanIffThreshold(c: Config, before: Calls<Op>, ip: string, t: int)
    requires InTime(c, Then(before, Fail(ip, t)), ip)
    ensures var s, s' := After(c, before), After(c, Then(before, Fail(ip, t)));
      s'.banned ==
        if !Listed(before, ip)
           && FailuresSinceReset(c, before, ip, Latest(c, before, ip, t) - c.window) + 1 >= c.threshold
        then s.banned[ip := t] else s.banned
  {
    var log := LogOf(After(c, before), ip);
    LogIsPrompt(c, before, ip);
    LogIsBound(c, before, ip, t + c.window - 1);
    SurvivorsAreRecent(log, c.window, t);
    LogCountsFailures(c, before, ip, Newest(log, t) - c.window);
    StateTellsCalls(c, before, ip);
  }

  /** A failure that is not older than any recorded before, as for clocks in order, bans exactly
      when the address is not listed and, with those of the window before it, it reaches the
      threshold. */
  lemma BanInOrder(c: Config, before: Calls<Op>, ip: string, t: int)
    requires NothingLater(before, ip, t)
    ensures Bans(c, before, ip, t) <==>
      !Listed(before, ip) && FailuresSinceReset(c, before, ip, t - c.window) + 1 >= c.threshold
  {
    var log := LogOf(After(c, before), ip);
    LogIsBound(c, before, ip, t);
    SurvivorsAtMost(log, c.window, t - c.window);
    SurvivorsAtLeast(log, c.window, t - c.window, t);
    LogCountsFailures(c, before, ip, t - c.window);
    StateTellsCalls(c, before, ip);
  }

  /** Calls that neither ban ip by hand nor record a failure of it. */
  predicate Quiet(before: Calls<Op>, calls: Calls<Op>, ip: string) {
    calls == before ||
    (calls.Then? && Quiet(before, calls.before, ip) && !((calls.op.Ban? || calls.op.Fail?) && calls.op.ip == ip))
  }

  lemma {:induction false} QuietStaysFree(c: Config, before: Calls<Op>, calls: Calls<Op>, ip: string)
    requires Quiet(before, calls, ip) && BannedAt(c, before, ip).None?
    ensures BannedAt(c, calls, ip).None?
  {
    if calls != before { QuietStaysFree(c, before, calls.before, ip); }
  }

  /** After a ban is ended the address is not reported until it is banned again, and the failures
      before count no more. */
  lemma LiftedIsFree(c: Config, before: Calls<Op>, op: Op, calls: Calls<Op>, ip: string, now: int, moment: int)
    requires Lifts(c, before, op, ip) && Quiet(Then(before, op), calls, ip)
    ensures !Reports(c, After(c, calls), ip, now)
    ensures CountAfter(LogOf(After(c, Then(before, op)), ip), moment) == 0
  {
    QuietStaysFree(c, Then(before, op), calls, ip);
    ReportedIff(c, calls, ip, now);
    LogCountsFailures(c, Then(before, op), ip, moment);
  }

  /** If the failure bans, the threshold is reached within one window: the one up to the newest
      failure since the last reset, this one included. */
  predicate Caused(c: Config, before: Calls<Op>, ip: string, t: int) {
    var log := LogOf(After(c, before), ip);
    Bans(c, before, ip, t) ==> CountAfter(Failed(t, log), Newest(log, t) - c.window) >= c.threshold
  }

  /** Every failure of ip was recorded at most d after a newer one. */
  predicate LateBy(calls: Calls<Op>, ip: string, d: int) {
    calls.Then? ==>
      && LateBy(calls.before, ip, d)
      && (calls.op.Fail? && calls.op.ip == ip ==> NothingLater(calls.before, ip, calls.op.time + d))
  }

  lemma {:induction false} NothingLaterWeakens(calls: Calls<Op>, ip: string, moment: int, later: int)
    requires NothingLater(calls, ip, moment) && moment <= later
    ensures NothingLater(calls, ip, later)
  {
    if calls.Then? { NothingLaterWeakens(calls.before, ip, moment, later); }
  }

  lemma {:induction false} LateIsInTime(c: Config, calls: Calls<Op>, ip: string, d: int)
    requires LateBy(calls, ip, d) && d < c.window
    ensures InTime(c, calls, ip)
  {
    if calls.Then? {
      LateIsInTime(c, calls.before, ip, d);
      if calls.op.Fail? && calls.op.ip == ip {
        NothingLaterWeakens(calls.before, ip, calls.op.time + d, calls.op.time + c.window - 1);
      }
    }
  }

  lemma PromptIsCaused(c: Config, before: Calls<Op>, ip: string, t: int, d: int)
    requires 0 <= d < c.window && LateBy(Then(before, Fail(ip, t)), ip, d)
    ensures Caused(c, before, ip, t)
  {
    var log := LogOf(After(c, before), ip);
    LateIsInTime(c, Then(before, Fail(ip, t)), ip, d);
    LogIsPrompt(c, before, ip);
    LogIsBound(c, before, ip, t + c.window - 1);
    SurvivorsAreRecent(log, c.window, t);
    NewestIsBound(log, t, t + c.window - 1);
  }

  /** The newest failure lies in its own window. */
  lemma {:induction false} NewestCounts(log: Failures, t: int, window: int)
    requires 0 < window
    ensures CountAfter(Failed(t, log), Newest(log, t) - window) >= 1
  {
    match log
    case Clean =>
    case Failed(u, earlier) => NewestCounts(earlier, Max(t, u), window);
  }

  lemma OneIsCaused(c: Config, before: Calls<Op>, ip: string, t: int)
    requires 0 < c.window && c.threshold <= 1
    ensures Caused(c, before, ip, t)
  {
    NewestCounts(LogOf(After(c, before), ip), t, c.window);
  }

  /** That many failures at the moment zero. */
  function Zeros(ip: string, n: nat): Calls<Op> {
    if n == 0 then NoCalls else Then(Zeros(ip, n - 1), Fail(ip, 0))
  }

  lemma {:induction false} ZerosAreInOrder(ip: string, n: nat)
    ensures NothingLater(Zeros(ip, n), ip, 0)
  {
    if n > 0 { ZerosAreInOrder(ip, n - 1); }
  }

  lemma {:induction false} ZerosInOrder(ip: string, n: nat, d: int)
    requires 0 <= d
    ensures LateBy(Zeros(ip, n), ip, d)
  {
    if n > 0 {
      ZerosInOrder(ip, n - 1, d);
      ZerosAreInOrder(ip, n - 1);
      NothingLaterWeakens(Zeros(ip, n - 1), ip, 0, d);
    }
  }

  function ZeroLog(n: nat): Failures {
    if n == 0 then Clean else Failed(0, ZeroLog(n - 1))
  }

  lemma {:induction false} ZerosLog(c: Config, ip: string, n: nat)
    ensures var s := After(c, Zeros(ip, n)); ip !in s.whitelist && LogOf(s, ip) == ZeroLog(n)
  {
    if n > 0 { ZerosLog(c, ip, n - 1); }
  }

  lemma {:induction false} ZeroLogCounts(n: nat, window: int, cutoff: int)
    requires 0 < window && cutoff < 0
    ensures Survivors(ZeroLog(n), window, cutoff) == n && CountAfter(ZeroLog(n), cutoff) == n
  {
    if n > 0 { ZeroLogCounts(n - 1, window, Max(cutoff, -window)); ZeroLogCounts(n - 1, window, cutoff); }
  }

  lemma {:induction false} ZeroLogNewest(n: nat, t: int)
    requires 0 < n && t <= 0
    ensures Newest(ZeroLog(n), t) == 0
  {
    if n > 1 { ZeroLogNewest(n - 1, 0); }
  }

  /** With one failure of a window before, they ban, and lack one in every window. */
  lemma ZerosBan(c: Config, ip: string, n: nat)
    requires 0 < c.window && 0 < n && n + 1 == c.threshold
    ensures !Caused(c, Zeros(ip, n), ip, -c.window)
  {
    ZerosLog(c, ip, n);
    ZeroLogCounts(n, c.window, -c.window - c.window);
    ZeroLogCounts(n, c.window, -c.window);
    ZeroLogNewest(n, -c.window);
  }

  /** With failures late by d, every ban has the threshold within one window behind it if and only
      if d is less than a window, or one failure is enough for a ban. */
  lemma SoundIffPrompt(c: Config, ip: string, d: int)
    requires 0 < c.window && 0 <= d
    ensures (forall before, t :: LateBy(Then(before, Fail(ip, t)), ip, d) ==> Caused(c, before, ip, t))
      <==> d < c.window || c.threshold <= 1
  {
    if d < c.window || c.threshold <= 1 {
      forall before, t | LateBy(Then(before, Fail(ip, t)), ip, d) ensures Caused(c, before, ip, t) {
        if d < c.window { PromptIsCaused(c, before, ip, t, d); } else { OneIsCaused(c, before, ip, t); }
      }
    } else {
      var before := Zeros(ip, c.threshold - 1);
      ZerosAreInOrder(ip, c.threshold - 1);
      ZerosInOrder(ip, c.threshold - 1, d);
      assert LateBy(Then(before, Fail(ip, -c.window)), ip, d) by {
        NothingLaterWeakens(before, ip, 0, -c.window + d);
      }
      ZerosBan(c, ip, c.threshold - 1);
      assert !Caused(c, before, ip, -c.window);
    }
  }

  /** A failure recorded later than that can ban although no two failures lie within a window:
      here the second is 99 older than the first, with a window of 10. */
  lemma LateFailureBans(ip: string)
    ensures var c, calls := Config(2, 10), Then(Then(NoCalls, Fail(ip, 200)), Fail(ip, 101));
      Reports(c, After(c, calls), ip, 101) && !InTime(c, calls, ip)
  {
    var c, one := Config(2, 10), Then(NoCalls, Fail(ip, 200));
    assert After(c, NoCalls) == BanState(map[], map[], {});
    assert After(c, one) == BanState(map[ip := Failed(200, Clean)], map[], {});
    var after := After(c, Then(one, Fail(ip, 101)));
    assert after == Apply(c, After(c, one), Fail(ip, 101));
    assert Survivors(Failed(200, Clean), 10, 91) == 1;
    assert !NothingLater(one, ip, 110);
  }

  /** A ban at a moment has a cause: a manual ban then, or a failure then that, with those less
      than a window older or any later, reached the threshold. Unless failures were recorded a
      window late they all lie within one window. */
  predicate HasCause(c: Config, calls: Calls<Op>, ip: string, t: int) {
    match calls
    case NoCalls => false
    case Then(before, op) =>
      || op == Ban(ip, t)
      || (op == Fail(ip, t) && FailuresSinceReset(c, before, ip, t - c.window) + 1 >= c.threshold
          && (InTime(c, calls, ip) ==>
                FailuresSinceReset(c, before, ip, Latest(c, before, ip, t) - c.window) + 1 >= c.threshold))
      || HasCause(c, before, ip, t)
  }

  /** Soundness over whole runs, in whatever order failures were recorded: no address is banned
      without a cause. */
  lemma {:induction false} EveryBanHasACause(c: Config, calls: Calls<Op>, ip: string)
    requires ip in After(c, calls).banned
    ensures HasCause(c, calls, ip, After(c, calls).banned[ip])
  {
    match calls
    case Then(before, op) =>
      var s := After(c, before);
      if op.Fail? {
        SurvivorsAtMost(LogOf(s, op.ip), c.window, op.time - c.window);
        LogCountsFailures(c, before, op.ip, op.time - c.window);
        if InTime(c, calls, op.ip) { BanIffThreshold(c, before, op.ip, op.time); }
      }
      if ip in s.banned && s.banned[ip] == After(c, calls).banned[ip] {
        EveryBanHasACause(c, before, ip);
      }
  }

  /** The calls made after `before`, none of which ends a ban of ip or lists it. */
  predicate Undisturbed(c: Config, before: Calls<Op>, calls: Calls<Op>, ip: string) {
    calls == before ||
    (calls.Then? && Undisturbed(c, before, calls.before, ip) && !Lifts(c, calls.before, calls.op, ip))
  }

  /** How many failures of ip after a moment are among the calls made after `before`. */
  function FailuresAmong(before: Calls<Op>, calls: Calls<Op>, ip: string, moment: int): nat {
    if calls == before || calls.NoCalls? then 0
    else FailuresAmong(before, calls.before, ip, moment)
         + if calls.op.Fail? && calls.op.ip == ip && calls.op.time > moment then 1 else 0
  }

  lemma {:induction false} UndisturbedCounts(c: Config, before: Calls<Op>, calls: Calls<Op>, ip: string, moment: int)
    requires Undisturbed(c, before, calls, ip)
    requires !Listed(before, ip)
    ensures !Listed(calls, ip)
    ensures FailuresAmong(before, calls, ip, moment) <= FailuresSinceReset(c, calls, ip, moment)
  {
    if calls != before {
      UndisturbedCounts(c, before, calls.before, ip, moment);
    }
  }

  lemma BansIsReported(c: Config, before: Calls<Op>, ip: string, t: int)
    requires !Listed(before, ip) && 0 <= c.window && (ip !in After(c, before).whitelist ==> Bans(c, before, ip, t))
    ensures Reports(c, After(c, Then(before, Fail(ip, t))), ip, t)
  {
    StateTellsCalls(c, before, ip);
    BansIsBanned(c, before, ip, t);
  }

  /** Completeness over whole runs, in whatever order failures are recorded: once the threshold is
      reached within the window that ends at a moment no failure is later than, whatever happened
      before and whatever other addresses do meanwhile, the address is banned. */
  lemma EnoughFailuresBan(c: Config, before: Calls<Op>, calls: Calls<Op>, ip: string, t: int, moment: int)
    requires !Listed(before, ip) && 0 <= c.window
    requires Undisturbed(c, before, calls, ip) && NothingLater(calls, ip, moment) && t <= moment
    requires FailuresAmong(before, calls, ip, moment - c.window) + 1 >= c.threshold
    ensures Reports(c, After(c, Then(calls, Fail(ip, t))), ip, t)
  {
    UndisturbedCounts(c, before, calls, ip, moment - c.window);
    LogCountsFailures(c, calls, ip, moment - c.window);
    LogIsBound(c, calls, ip, moment);
    SurvivorsAtLeast(LogOf(After(c, calls), ip), c.window, t - c.window, moment);
    BansIsReported(c, calls, ip, t);
  }

  /** For a ban the window is open: with two failures for one, the second bans only when less than
      the window has gone by. The ban itself lasts as long as the window. */
  lemma SecondFailure(ip: string, window: int, t: int, u: int, now: int)
    requires 0 < window && t <= u
    ensures var c, calls := Config(2, window), Then(Then(NoCalls, Fail(ip, t)), Fail(ip, u));
      Reports(c, After(c, calls), ip, now) <==> u - t < window && now - u <= window
  {
    var c, one := Config(2, window), Then(NoCalls, Fail(ip, t));
    assert After(c, NoCalls) == BanState(map[], map[], {});
    assert After(c, one) == BanState(map[ip := Failed(t, Clean)], map[], {});
    assert Survivors(Clean, window, Max(u - window, t - window)) == 0;
    assert After(c, Then(one, Fail(ip, u))) == Apply(c, After(c, one), Fail(ip, u));
  }

  // ---------------------------------------------------------------- the lists of the program

  function Lookup(failures: map<string, seq<int>>, ip: string): seq<int> {
    if ip in failures then failures[ip] else []
  }

  function FilterTo(ts: seq<int>, n: nat, cutoff: int): seq<int>
    requires n <= |ts|
  {
    if n == 0 then []
    else if ts[n - 1] > cutoff then FilterTo(ts, n - 1, cutoff) + [ts[n - 1]]
    else FilterTo(ts, n - 1, cutoff)
  }

  /** The list that recording these failures leaves. */
  function Held(log: Failures, window: int): seq<int> {
    match log
    case Clean => []
    case Failed(t, earlier) => FilterTo(Held(earlier, window), |Held(earlier, window)|, t - window) + [t]
  }

  lemma {:induction false} FilterPrefix(ts: seq<int>, us: seq<int>, n: nat, cutoff: int)
    requires n <= |ts| && n <= |us| && forall i | 0 <= i < n :: ts[i] == us[i]
    ensures FilterTo(ts, n, cutoff) == FilterTo(us, n, cutoff)
  {
    if n > 0 { FilterPrefix(ts, us, n - 1, cutoff); }
  }

  lemma FilterSnoc(ts: seq<int>, t: int, cutoff: int)
    ensures var us := ts + [t];
      FilterTo(us, |us|, cutoff) == FilterTo(ts, |ts|, cutoff) + (if t > cutoff then [t] else [])
  {
    FilterPrefix(ts, ts + [t], |ts|, cutoff);
  }

  lemma {:induction false} FilterTwice(ts: seq<int>, n: nat, cutoff: int, next: int)
    requires n <= |ts|
    ensures var fs := FilterTo(ts, n, cutoff);
      |FilterTo(fs, |fs|, next)| == |FilterTo(ts, n, Max(cutoff, next))|
  {
    if n > 0 {
      FilterTwice(ts, n - 1, cutoff, next);
      if ts[n - 1] > cutoff { FilterSnoc(FilterTo(ts, n - 1, cutoff), ts[n - 1], next); }
    }
  }

  /** Pruning the list counts the failures that survive. */
  lemma {:induction false} HeldCounts(log: Failures, window: int, cutoff: int)
    ensures |FilterTo(Held(log, window), |Held(log, window)|, cutoff)| == Survivors(log, window, cutoff)
  {
    match log
    case Clean =>
    case Failed(t, earlier) =>
      var held := Held(earlier, window);
      HeldCounts(earlier, window, Max(cutoff, t - window));
      FilterTwice(held, |held|, t - window, cutoff);
      FilterSnoc(FilterTo(held, |held|, t - window), t, cutoff);
  }

  ghost predicate AllHeld(failures: map<string, seq<int>>, s: BanState, window: int) {
    forall ip :: Lookup(failures, ip) == Held(LogOf(s, ip), window)
  }

  /** Changing the failures of one address. */
  lemma OneAddressChanges(before: map<string, seq<int>>, after: map<string, seq<int>>, s: BanState, s': BanState,
                          ip: string, window: int)
    requires AllHeld(before, s, window)
    requires forall k | k != ip :: Lookup(after, k) == Lookup(before, k) && LogOf(s', k) == LogOf(s, k)
    requires Lookup(after, ip) == Held(LogOf(s', ip), window)
    ensures AllHeld(after, s', window)
  {
    forall k ensures Lookup(after, k) == Held(LogOf(s', k), window) {
      if k != ip { assert Lookup(before, k) == Held(LogOf(s, k), window); }
    }
  }

  class IPBan {
    var failures: map<string, seq<int>>
    var banned: map<string, int>
    var whitelist: set<string>
    const threshold: int
    const window: int
    /** All calls made so far. */
    ghost var calls: Calls<Op>

    ghost function C(): Config { Config(threshold, window) }

    ghost function S(): BanState
      reads this
    {
      After(C(), calls)
    }

    ghost predicate Valid()
      reads this
    {
      banned == S().banned && whitelist == S().whitelist && AllHeld(failures, S(), window)
    }

    constructor (threshold: int, window: int)
      ensures Valid() && this.threshold == threshold && this.window == window && calls == NoCalls
    {
      this.threshold, this.window := threshold, window;
      failures, banned, whitelist := map[], map[], {};
      calls := NoCalls;
    }

    /** The state after one more call. */
    ghost function Next(op: Op): BanState
      reads this
    {
      Apply(C(), S(), op)
    }

    /** Listing an address also forgets its ban and its failures. */
    method AddWhitelist(ip: string)
      requires Valid()
      modifies this
      ensures Valid() && calls == Then(old(calls), Whitelist(ip))
    {
      OneAddressChanges(failures, failures - {ip}, S(), Next(Whitelist(ip)), ip, window);
      whitelist, banned, failures := whitelist + {ip}, banned - {ip}, failures - {ip};
      calls := Then(calls, Whitelist(ip));
    }

    method RemoveWhitelist(ip: string)
      requires Valid()
      modifies this`whitelist, this`calls
      ensures Valid() && calls == Then(old(calls), Unlist(ip))
    {
      whitelist := whitelist - {ip};
      calls := Then(calls, Unlist(ip));
    }

    /** The loop of the source over the old failures, in order. */
    method Prune(times: seq<int>, cutoff: int) returns (valid: seq<int>)
      ensures valid == FilterTo(times, |times|, cutoff)
    {
      valid := [];
      for i := 0 to |times|
        invariant valid == FilterTo(times, i, cutoff)
      {
        if times[i] > cutoff {
          valid := valid + [times[i]];
        }
      }
    }

    /** The failures that survive, and this one. */
    method Recent(ip: string, now: int) returns (valid: seq<int>)
      requires Valid()
      ensures |valid| == Survivors(LogOf(S(), ip), window, now - window) + 1
      ensures valid == Held(Failed(now, LogOf(S(), ip)), window)
    {
      HeldCounts(LogOf(S(), ip), window, now - window);
      assert Lookup(failures, ip) == Held(LogOf(S(), ip), window);
      valid := Prune(Lookup(failures, ip), now - window);
      valid := valid + [now];
    }

    /** Records a failure of an address that is not listed. What that means for the ban is said by
        `BanIffThreshold` about the calls. */
    method RecordFailure(ip: string, now: int)
      requires Valid()
      modifies this`failures, this`banned, this`calls
      ensures Valid() && calls == Then(old(calls), Fail(ip, now))
    {
      if ip in whitelist {
        calls := Then(calls, Fail(ip, now));
        return;
      }
      var valid := Recent(ip, now);
      OneAddressChanges(failures, failures[ip := valid], S(), Next(Fail(ip, now)), ip, window);
      failures := failures[ip := valid];
      if |valid| >= threshold {
        banned := banned[ip := now];
      }
      calls := Then(calls, Fail(ip, now));
    }

    /** Never true of a listed address, even after a manual ban; an expired ban is forgotten. */
    method IsBanned(ip: string, now: int) returns (b: bool)
      requires Valid()
      modifies this`banned, this`failures, this`calls
      ensures Valid() && calls == Then(old(calls), Ask(ip, now))
      ensures b == old(InForce(C(), calls, ip, now))
      ensures ip in whitelist ==> !b
    {
      ReportedIff(C(), calls, ip, now);
      if ip !in whitelist && ip in banned && now - banned[ip] > window {
        OneAddressChanges(failures, failures - {ip}, S(), Next(Ask(ip, now)), ip, window);
        banned, failures := banned - {ip}, failures - {ip};
        calls := Then(calls, Ask(ip, now));
        return false;
      }
      calls := Then(calls, Ask(ip, now));
      return ip !in whitelist && ip in banned;
    }

    method Unban(ip: string)
      requires Valid()
      modifies this`banned, this`failures, this`calls
      ensures Valid() && calls == Then(old(calls), Op.Unban(ip))
    {
      OneAddressChanges(failures, failures - {ip}, S(), Next(Op.Unban(ip)), ip, window);
      banned, failures := banned - {ip}, failures - {ip};
      calls := Then(calls, Op.Unban(ip));
    }

    method Ban(ip: string, now: int)
      requires Valid()
      modifies this`banned, this`calls
      ensures Valid() && calls == Then(old(calls), Op.Ban(ip, now))
    {
      banned := banned[ip := now];
      calls := Then(calls, Op.Ban(ip, now));
    }
  }
}
