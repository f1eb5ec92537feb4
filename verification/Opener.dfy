/**
 One call of `ipv6Opener.open` (internal/proxy/dial.go): the exit address is confirmed with
 throw-away connections before the connection for the client is dialled.

 The network, the dead-connection check, the payload exchange, the other users of the warm
 cache and the cancellation of the context are oracles: each may answer anything at any
 time, except that a cancelled context stays cancelled. Times are in seconds.
 */
module Opener {
  import opened Text

  const WARM_DIAL_TIMEOUT := 15
  const COLD_DIAL_TIMEOUT := 3
  const WARMUP_RETRY_TIMEOUT := 5
  const PROBE_TARGET := "[2001:4860:4860::8888]:53"

  /** One dial: its arguments, the connection it opened if any, whether a failure was of the
      kind worth a retry, and whether the context was cancelled when the dial came back. */
  datatype Dial = Dial(target: string, timeout: int, conn: Option<nat>, retryable: bool, cancelled: bool)

  /** How the call came to be allowed to dial for the client. */
  datatype Role = Undecided | FoundWarm | Waiter | Leader

  function OrDefault(timeout: int, default: int): int {
    if timeout <= 0 then default else timeout
  }

  datatype Timeouts = Timeouts(cold: int, retry: int, warm: int) {
    predicate Positive() { 0 < cold && 0 < retry && 0 < warm }

    function Total(): int { cold + retry + warm }
  }

  function Spent(ds: seq<Dial>): int {
    if ds == [] then 0 else Spent(ds[..|ds| - 1]) + ds[|ds| - 1].timeout
  }

  /** A dial that failed under a cancelled context: the call must not dial again. */
  predicate Fatal(d: Dial) { d.conn.None? && d.cancelled }

  predicate NoDialAfterFatal(ds: seq<Dial>) {
    forall i | 0 <= i < |ds| - 1 :: !Fatal(ds[i])
  }

  predicate Stopped(ds: seq<Dial>) { ds != [] && Fatal(ds[|ds| - 1]) }

  predicate Is(d: Dial, target: string, timeout: int) { d.target == target && d.timeout == timeout }

  /** A dial with the cold timeout, repeated once with the retry timeout if it failed without
      the context being cancelled, and repeated with the warm timeout if the connection was
      opened but dead. */
  predicate ColdRetry(ds: seq<Dial>, target: string, t: Timeouts) {
    && ds != [] && Is(ds[0], target, t.cold)
    && var again := ds[0].conn.None? && ds[0].retryable && !ds[0].cancelled;
       || |ds| == 1
       || (|ds| == 2 && again && Is(ds[1], target, t.retry))
       || (|ds| == 2 && ds[0].conn.Some? && Is(ds[1], target, t.warm))
       || (|ds| == 3 && again && Is(ds[1], target, t.retry) && ds[1].conn.Some? && Is(ds[2], target, t.warm))
  }

  predicate AtMostOne(ds: seq<Dial>, target: string, t: Timeouts) {
    ds == [] || ColdRetry(ds, target, t)
  }

  lemma {:induction false} SpentConcat(a: seq<Dial>, b: seq<Dial>)
    ensures Spent(a + b) == Spent(a) + Spent(b)
  {
    if b == [] {
      assert a + b == a;
    } else {
      assert (a + b)[..|a + b| - 1] == a + b[..|b| - 1];
      SpentConcat(a, b[..|b| - 1]);
    }
  }

  lemma ColdRetrySpent(ds: seq<Dial>, target: string, t: Timeouts)
    requires ColdRetry(ds, target, t) && t.Positive()
    ensures 0 < Spent(ds) <= t.Total()
  {
    assert Spent(ds[..0]) == 0;
    assert Spent(ds[..1]) == t.cold by { assert ds[..1][..0] == ds[..0]; }
    if |ds| == 1 {
      assert ds == ds[..1];
    } else {
      assert Spent(ds[..2]) == t.cold + ds[1].timeout by { assert ds[..2][..1] == ds[..1]; }
      if |ds| == 2 {
        assert ds == ds[..2];
      } else {
        assert ds[1].timeout == t.retry && ds[2].timeout == t.warm;
      }
    }
  }

  lemma AtMostOneSpent(ds: seq<Dial>, target: string, t: Timeouts)
    requires AtMostOne(ds, target, t) && t.Positive()
    ensures 0 <= Spent(ds) <= t.Total() && |ds| <= 3
  {
    if ds != [] { ColdRetrySpent(ds, target, t); }
  }

  /** The dials of the warmup: only a leader has any. */
  ghost predicate WarmupDials(role: Role, viaProbe: seq<Dial>, viaTarget: seq<Dial>,
                              probe: string, target: string, t: Timeouts) {
    if role == Leader then ColdRetry(viaProbe, probe, t) && AtMostOne(viaTarget, target, t)
    else viaProbe == [] && viaTarget == []
  }

  /** The dials for the client, given whether the address was found warm just before. */
  predicate ClientDials(warm: bool, client: seq<Dial>, target: string, t: Timeouts) {
    if warm then |client| == 1 && Is(client[0], target, t.warm) else ColdRetry(client, target, t)
  }

  /** The dials of a finished call, as `Open` guarantees them. `first` and `second` are what the
      cache answered each time the address was looked up. */
  ghost predicate CallDials(role: Role, first: Option<bool>, second: Option<bool>,
                            viaProbe: seq<Dial>, viaTarget: seq<Dial>, client: seq<Dial>,
                            probe: string, target: string, t: Timeouts) {
    && WarmupDials(role, viaProbe, viaTarget, probe, target, t)
    && first.Some? && (client != [] <==> second.Some?)
    && (second.Some? ==> ClientDials(second.value, client, target, t))
    && (first.value ==> role == FoundWarm) && (role == FoundWarm ==> second.Some?)
  }

  function Conns(conn: Option<nat>): set<nat> {
    if conn.Some? then {conn.value} else {}
  }

  class OpenCall {
    const probeTarget: string
    const coldTimeout: int
    const warmTimeout: int
    const warmupRetry: int
    const checksDead: bool      // the opener has an alreadyDead function

    var cancelled: bool         // ctx.Err() != nil
    var nextConn: nat

    // what happened so far in this call
    ghost var dials: seq<Dial>
    ghost var openConns: set<nat>     // of the connections opened, which are those below nextConn
    ghost var foundAlive: set<nat>    // what alreadyDead answered, per connection
    ghost var foundDead: set<nat>
    ghost var carriedData: set<nat>   // how the exchange over a connection went
    ghost var failedData: set<nat>
    ghost var role: Role
    ghost var leading: bool
    ghost var finishes: nat           // how often an outcome was reported to the cache, and the last one
    ghost var reported: bool
    ghost var firstLook: Option<bool>
    ghost var secondLook: Option<bool>
    ghost var warmFailed: bool        // what ensureWarm returned, and what was then asked of the context
    ghost var ctxGone: Option<bool>
    ghost var warmupConns: nat        // how many were opened before the dial for the client

    /** The timeouts of the source, in seconds, unless the opener sets its own. */
    function T(): (t: Timeouts)
      ensures t.cold == (if coldTimeout <= 0 then 3 else coldTimeout)
      ensures t.retry == (if warmupRetry <= 0 then 5 else warmupRetry)
      ensures t.warm == (if warmTimeout <= 0 then 15 else warmTimeout)
    {
      Timeouts(OrDefault(coldTimeout, COLD_DIAL_TIMEOUT),
               OrDefault(warmupRetry, WARMUP_RETRY_TIMEOUT),
               OrDefault(warmTimeout, WARM_DIAL_TIMEOUT))
    }

    function Probe(): string { if probeTarget != "" then probeTarget else PROBE_TARGET }

    ghost predicate Valid()
      reads this
    {
      && NoDialAfterFatal(dials)
      && (Stopped(dials) ==> cancelled)
      && (forall c | c in openConns || c in foundDead || c in carriedData || c in failedData :: c < nextConn)
      && carriedData !! failedData
    }

    constructor (probeTarget: string, coldTimeout: int, warmTimeout: int, warmupRetry: int, checksDead: bool)
      ensures Valid() && Fresh()
      ensures this.probeTarget == probeTarget && this.checksDead == checksDead
      ensures this.coldTimeout == coldTimeout && this.warmTimeout == warmTimeout && this.warmupRetry == warmupRetry
    {
      this.probeTarget, this.coldTimeout, this.warmTimeout, this.warmupRetry, this.checksDead :=
        probeTarget, coldTimeout, warmTimeout, warmupRetry, checksDead;
      cancelled, nextConn := false, 0;
      dials, openConns, foundAlive, foundDead, carriedData, failedData := [], {}, {}, {}, {}, {};
      role, leading, finishes, reported, warmupConns := Undecided, false, 0, false, 0;
      firstLook, secondLook, warmFailed, ctxGone := None, None, false, None;
    }

    ghost predicate Fresh()
      reads this
    {
      && dials == [] && nextConn == 0 && role == Undecided && !leading && finishes == 0
      && firstLook.None? && secondLook.None?
    }

    // -------------------------------------------------------------- oracles

    /** ctx.Err() != nil. The context may have been cancelled at any moment. */
    method CtxErr() returns (err: bool)
      requires Valid()
      modifies this`cancelled
      ensures Valid() && err == cancelled && (old(cancelled) ==> cancelled)
    {
      if * { cancelled := true; }
      err := cancelled;
    }

    method DialOnce(target: string, timeout: int) returns (conn: Option<nat>, retryable: bool)
      requires Valid() && !Stopped(dials)
      modifies this`cancelled, this`nextConn, this`dials, this`openConns
      ensures Valid() && (old(cancelled) ==> cancelled)
      ensures dials == old(dials) + [Dial(target, timeout, conn, retryable, cancelled)]
      ensures conn.Some? ==> conn.value == old(nextConn)
      ensures nextConn == old(nextConn) + (if conn.Some? then 1 else 0) && openConns == old(openConns) + Conns(conn)
    {
      if * { cancelled := true; }
      conn, retryable := None, *;
      if * {
        conn := Some(nextConn);
        nextConn := nextConn + 1;
      }
      dials := dials + [Dial(target, timeout, conn, retryable, cancelled)];
      openConns := openConns + Conns(conn);
    }

    method AlreadyDead(conn: nat) returns (dead: bool)
      requires Valid() && conn in openConns
      modifies this`cancelled, this`foundAlive, this`foundDead
      ensures Valid() && (old(cancelled) ==> cancelled)
      ensures foundAlive == old(foundAlive) + if dead then {} else {conn}
      ensures foundDead == old(foundDead) + if dead then {conn} else {}
      ensures dead ==> checksDead
    {
      if * { cancelled := true; }
      dead := false;
      if checksDead { dead := *; }
      foundAlive := foundAlive + if dead then {} else {conn};
      foundDead := foundDead + if dead then {conn} else {};
    }

    method Confirm(conn: nat) returns (err: bool)
      requires Valid() && conn in openConns && conn !in carriedData && conn !in failedData
      modifies this`cancelled, this`carriedData, this`failedData
      ensures Valid() && (old(cancelled) ==> cancelled)
      ensures carriedData == old(carriedData) + if err then {} else {conn}
      ensures failedData == old(failedData) + if err then {conn} else {}
    {
      if * { cancelled := true; }
      err := *;
      carriedData := carriedData + if err then {} else {conn};
      failedData := failedData + if err then {conn} else {};
    }

    /** Closing needs an open connection, so no connection is closed twice. */
    method Close(conn: nat)
      requires Valid() && conn in openConns
      modifies this`openConns
      ensures Valid() && openConns == old(openConns) - {conn}
    {
      openConns := openConns - {conn};
    }

    method Seen() returns (warm: bool)
      requires Valid() && secondLook.None?
      modifies this`cancelled, this`firstLook, this`secondLook
      ensures Valid() && (old(cancelled) ==> cancelled)
      ensures if old(firstLook).None? then firstLook == Some(warm) && secondLook.None?
              else firstLook == old(firstLook) && secondLook == Some(warm)
    {
      if * { cancelled := true; }
      warm := *;
      if firstLook.None? {
        firstLook := Some(warm);
      } else {
        secondLook := Some(warm);
      }
    }

    method BeginConfirm() returns (warm: bool, leader: bool)
      requires Valid() && !leading && role == Undecided
      modifies this`cancelled, this`role, this`leading
      ensures Valid() && (old(cancelled) ==> cancelled)
      ensures role == if warm then FoundWarm else if leader then Leader else Waiter
      ensures leading == (role == Leader) && (leader ==> !warm)
    {
      if * { cancelled := true; }
      warm, leader := *, *;
      leader := leader && !warm;
      role := if warm then FoundWarm else if leader then Leader else Waiter;
      leading := leader;
    }

    method FinishConfirm(succeeded: bool)
      requires Valid() && leading
      modifies this`leading, this`finishes, this`reported
      ensures Valid() && !leading && finishes == old(finishes) + 1 && reported == succeeded
    {
      leading, finishes, reported := false, finishes + 1, succeeded;
    }

    // -------------------------------------------------------------- the procedure

    /** No later check changes what was found out about earlier connections. */
    ghost predicate OldVerdictsKept(before: nat, alive: set<nat>, dead: set<nat>)
      reads this
    {
      && before <= nextConn && alive <= foundAlive && dead <= foundDead
      && forall c | c in foundDead && c < before :: c in dead
    }

    /** The last part of it: a connection that is dead at once is closed and dialled anew, with
        no further check. */
    method RedialIfDead(target: string, first: nat) returns (conn: Option<nat>, ghost more: seq<Dial>)
      requires Valid() && first in openConns && !Stopped(dials)
      modifies this`cancelled, this`nextConn, this`dials, this`openConns, this`foundAlive, this`foundDead
      ensures Valid() && (old(cancelled) ==> cancelled) && dials == old(dials) + more
      ensures old(nextConn) <= nextConn && openConns == old(openConns) - {first} + Conns(conn)
      ensures if more == []
        then conn == Some(first) && foundAlive == old(foundAlive) + {first} && foundDead == old(foundDead)
        else |more| == 1 && Is(more[0], target, T().warm) && conn == more[0].conn
             && foundAlive == old(foundAlive) && foundDead == old(foundDead) + {first}
             && (conn.Some? ==> old(nextConn) <= conn.value < nextConn)
    {
      conn, more := Some(first), [];
      var dead := AlreadyDead(first);
      if dead {
        Close(first);
        var retryable;
        conn, retryable := DialOnce(target, OrDefault(warmTimeout, WARM_DIAL_TIMEOUT));
        more := [Dial(target, T().warm, conn, retryable, cancelled)];
      }
    }

    method DialWithColdRetry(target: string) returns (conn: Option<nat>, ghost ds: seq<Dial>)
      requires Valid() && !Stopped(dials)
      modifies this`cancelled, this`nextConn, this`dials, this`openConns, this`foundAlive, this`foundDead
      ensures Valid() && (old(cancelled) ==> cancelled)
      ensures dials == old(dials) + ds && ColdRetry(ds, target, T())
      ensures conn == ds[|ds| - 1].conn
      ensures old(nextConn) <= nextConn && openConns == old(openConns) + Conns(conn)
      ensures conn.Some? ==> old(nextConn) <= conn.value < nextConn
      ensures conn.Some? ==> conn.value !in foundDead
      ensures if |ds| >= 2 && ds[|ds| - 2].conn.Some? then ds[|ds| - 2].conn.value in foundDead
        else conn.Some? ==> conn.value in foundAlive
      ensures |ds| == 1 && ds[0].conn.None? ==> !ds[0].retryable || cancelled
      ensures OldVerdictsKept(old(nextConn), old(foundAlive), old(foundDead))
    {
      var retryable;
      conn, retryable := DialOnce(target, OrDefault(coldTimeout, COLD_DIAL_TIMEOUT));
      ds := [Dial(target, T().cold, conn, retryable, cancelled)];
      if conn.None? {
        var err := CtxErr();
        if !err && retryable {
          conn, retryable := DialOnce(target, OrDefault(warmupRetry, WARMUP_RETRY_TIMEOUT));
          ds := ds + [Dial(target, T().retry, conn, retryable, cancelled)];
        }
      }
      if conn.Some? {
        ghost var more;
        conn, more := RedialIfDead(target, conn.value);
        ds := ds + more;
      }
    }

    /** One throw-away connection, closed again whatever happens. It confirms the address only
        when it was found alive and, with data, when the exchange succeeded. */
    method ConfirmDial(target: string, withData: bool) returns (err: bool, ghost ds: seq<Dial>)
      requires Valid() && !Stopped(dials)
      modifies this`cancelled, this`nextConn, this`dials, this`openConns, this`foundAlive, this`foundDead,
               this`carriedData, this`failedData
      ensures Valid() && (old(cancelled) ==> cancelled)
      ensures dials == old(dials) + ds && ColdRetry(ds, target, T())
      ensures old(nextConn) <= nextConn && openConns == old(openConns)
      ensures !err ==> Usable(ds[|ds| - 1], withData)
      ensures var conn := ds[|ds| - 1].conn;
        err <==> conn.None? || conn.value in foundDead || (withData && conn.value in failedData)
      ensures old(foundDead) <= foundDead && old(failedData) <= failedData
    {
      var conn;
      conn, ds := DialWithColdRetry(target);
      if conn.None? {
        return true, ds;
      }
      var dead := AlreadyDead(conn.value);
      if dead {
        Close(conn.value);
        return true, ds;
      }
      if withData {
        var failed := Confirm(conn.value);
        if failed {
          Close(conn.value);
          return true, ds;
        }
      }
      Close(conn.value);
      return false, ds;
    }

    ghost predicate Usable(d: Dial, withData: bool)
      reads this
    {
      && d.conn.Some? && d.conn.value < nextConn
      && d.conn.value in foundAlive && d.conn.value !in foundDead
      && (withData ==> d.conn.value in carriedData)
    }

    /** The warmup succeeds when the probe connection carried data, or else a connection to the
        target was alive. */
    ghost predicate Confirmed(viaProbe: seq<Dial>, viaTarget: seq<Dial>)
      reads this
    {
      if viaTarget == [] then viaProbe != [] && Usable(viaProbe[|viaProbe| - 1], true)
      else Usable(viaTarget[|viaTarget| - 1], false)
    }

    /** The dial made no connection, or one that was dead, or one over which the exchange failed. */
    ghost predicate Unusable(d: Dial, withData: bool)
      reads this
    {
      d.conn.None? || d.conn.value in foundDead || (withData && d.conn.value in failedData)
    }

    /** The warmup fails when the probe was unusable, and so was the target, unless that is the
        probe or the context was cancelled. */
    ghost predicate FailedWarmup(viaProbe: seq<Dial>, viaTarget: seq<Dial>, target: string)
      reads this
    {
      && viaProbe != [] && Unusable(viaProbe[|viaProbe| - 1], true)
      && (|| (viaTarget == [] && (cancelled || Probe() == target))
          || (viaTarget != [] && Unusable(viaTarget[|viaTarget| - 1], false)))
    }

    method WarmupExit(target: string) returns (err: bool, ghost viaProbe: seq<Dial>, ghost viaTarget: seq<Dial>)
      requires Valid() && !Stopped(dials)
      modifies this`cancelled, this`nextConn, this`dials, this`openConns, this`foundAlive, this`foundDead,
               this`carriedData, this`failedData
      ensures Valid() && (old(cancelled) ==> cancelled)
      ensures dials == old(dials) + viaProbe + viaTarget
      ensures ColdRetry(viaProbe, Probe(), T()) && AtMostOne(viaTarget, target, T())
      ensures Probe() == target ==> viaTarget == []
      ensures old(nextConn) <= nextConn && openConns == old(openConns)
      ensures Stopped(dials) ==> err
      ensures if err then FailedWarmup(viaProbe, viaTarget, target) else Confirmed(viaProbe, viaTarget)
      ensures viaTarget != [] ==> Unusable(viaProbe[|viaProbe| - 1], true)
    {
      var probe := if probeTarget != "" then probeTarget else PROBE_TARGET;
      viaTarget := [];
      err, viaProbe := ConfirmDial(probe, true);
      if !err {
        return;
      }
      var gone := CtxErr();
      if gone {
        return;
      }
      if probe != target {
        err, viaTarget := ConfirmDial(target, false);
        if !err {
          return;
        }
        gone := CtxErr();
        if gone {
          return;
        }
      }
    }

    /** What was reported to the cache is how the warmup went. */
    ghost predicate Outcome(viaProbe: seq<Dial>, viaTarget: seq<Dial>, target: string)
      reads this
    {
      if reported then Confirmed(viaProbe, viaTarget) else FailedWarmup(viaProbe, viaTarget, target)
    }

    method EnsureWarm(target: string) returns (err: bool, ghost viaProbe: seq<Dial>, ghost viaTarget: seq<Dial>)
      requires Valid() && Fresh()
      modifies this`cancelled, this`nextConn, this`dials, this`openConns, this`foundAlive, this`foundDead,
               this`carriedData, this`failedData, this`role, this`leading, this`finishes, this`reported,
               this`firstLook, this`secondLook
      ensures Valid() && (old(cancelled) ==> cancelled)
      ensures openConns == {} && !leading && firstLook.Some? && secondLook.None?
      ensures role != Undecided && (firstLook.value ==> role == FoundWarm)
      ensures dials == viaProbe + viaTarget
      ensures role == Leader ==>
        ColdRetry(viaProbe, Probe(), T()) && AtMostOne(viaTarget, target, T()) && finishes == 1 && reported == !err
      ensures role != Leader ==> dials == [] && finishes == 0
      ensures finishes > 0 ==> Outcome(viaProbe, viaTarget, target)
      ensures role == FoundWarm ==> !err
      ensures role == Waiter && err ==> cancelled
      ensures Stopped(dials) ==> err
    {
      viaProbe, viaTarget := [], [];
      var seen := Seen();
      if seen {
        role := FoundWarm;
        return false, [], [];
      }
      var warm, leader := BeginConfirm();
      if warm {
        return false, [], [];
      }
      if !leader {
        // select: the context is done, or the leader's channel is closed
        var gone := CtxErr();
        if gone {
          if * { return true, [], []; }
        }
        return false, [], [];
      }
      // the neighbour is primed here; that has no result
      err, viaProbe, viaTarget := WarmupExit(target);
      FinishConfirm(!err);
    }

    /** The connection for the client: one dial on a warm address, a cold one otherwise. */
    method DialClient(target: string) returns (conn: Option<nat>, ghost ds: seq<Dial>)
      requires Valid() && !Stopped(dials) && firstLook.Some? && secondLook.None?
      modifies this`cancelled, this`nextConn, this`dials, this`openConns, this`foundAlive, this`foundDead,
               this`firstLook, this`secondLook
      ensures Valid() && (old(cancelled) ==> cancelled)
      ensures firstLook == old(firstLook) && secondLook.Some?
      ensures dials == old(dials) + ds
      ensures ClientDials(secondLook.value, ds, target, T())
      ensures conn == ds[|ds| - 1].conn && ds[|ds| - 1].target == target
      ensures old(nextConn) <= nextConn && openConns == old(openConns) + Conns(conn)
      ensures conn.Some? ==> old(nextConn) <= conn.value < nextConn
      ensures OldVerdictsKept(old(nextConn), old(foundAlive), old(foundDead))
    {
      var warm := Seen();
      if !warm {
        conn, ds := DialWithColdRetry(target);
      } else {
        var retryable;
        conn, retryable := DialOnce(target, OrDefault(warmTimeout, WARM_DIAL_TIMEOUT));
        ds := [Dial(target, T().warm, conn, retryable, cancelled)];
      }
    }

    /** What a finished call guarantees. */
    ghost predicate Complete(target: string, conn: Option<nat>,
                             viaProbe: seq<Dial>, viaTarget: seq<Dial>, client: seq<Dial>)
      reads this
    {
      && Valid() && NoDialAfterFatal(dials)
      && dials == viaProbe + viaTarget + client
      && CallDials(role, firstLook, secondLook, viaProbe, viaTarget, client, Probe(), target, T())
      && (client == [] ==> conn.None? && cancelled)
      && (client == [] <==> warmFailed && ctxGone == Some(true)) && (warmFailed <==> ctxGone.Some?)
      && (role == Leader ==> warmFailed == !reported) && (role == FoundWarm ==> !warmFailed)
      && openConns == Conns(conn)
      && (conn.Some? ==>
            && client != [] && client[|client| - 1].conn == conn && client[|client| - 1].target == target
            && warmupConns <= conn.value < nextConn)
      && !leading && finishes == (if role == Leader then 1 else 0)
      && (finishes > 0 ==> Outcome(viaProbe, viaTarget, target))
    }

    /** A leader reports success exactly when the address was confirmed. */
    lemma ReportedIffConfirmed(target: string, conn: Option<nat>,
                               viaProbe: seq<Dial>, viaTarget: seq<Dial>, client: seq<Dial>)
      requires Complete(target, conn, viaProbe, viaTarget, client) && role == Leader
      ensures reported <==> Confirmed(viaProbe, viaTarget)
      ensures !reported <==> FailedWarmup(viaProbe, viaTarget, target)
    {
    }

    /** What holds after the warmup when the call may go on. */
    ghost predicate Warmed(target: string, viaProbe: seq<Dial>, viaTarget: seq<Dial>)
      reads this
    {
      && Valid() && !Stopped(dials) && openConns == {} && !leading && firstLook.Some? && secondLook.None?
      && (firstLook.value ==> role == FoundWarm)
      && dials == viaProbe + viaTarget
      && WarmupDials(role, viaProbe, viaTarget, Probe(), target, T())
      && finishes == (if role == Leader then 1 else 0)
      && (finishes > 0 ==> Outcome(viaProbe, viaTarget, target))
      && (role == Leader ==> warmFailed == !reported) && (role == FoundWarm ==> !warmFailed)
      && !(warmFailed && ctxGone == Some(true)) && (warmFailed <==> ctxGone.Some?)
    }

    /** The second half of a call. */
    method DialWarmed(target: string, ghost viaProbe: seq<Dial>, ghost viaTarget: seq<Dial>)
      returns (conn: Option<nat>, ghost client: seq<Dial>)
      requires Warmed(target, viaProbe, viaTarget)
      modifies this`cancelled, this`nextConn, this`dials, this`openConns, this`foundAlive, this`foundDead,
               this`firstLook, this`secondLook, this`warmupConns
      ensures Complete(target, conn, viaProbe, viaTarget, client)
    {
      warmupConns := nextConn;
      conn, client := DialClient(target);
    }

    /** The whole call, for every behaviour of the oracles: its dials are those of the warmup
        followed by those for the client.
        - Of all connections opened, exactly the returned one is still open; on failure none is.
        - It is the last one dialled, to the requested target, and not a warmup connection.
        - A dial that failed under a cancelled context is the last one.
        - Only a leader warms up; it reports the outcome to the cache exactly once: success when
          the address was confirmed, failure otherwise. */
    method Open(target: string)
      returns (conn: Option<nat>, ghost viaProbe: seq<Dial>, ghost viaTarget: seq<Dial>, ghost client: seq<Dial>)
      requires Valid() && Fresh()
      modifies this
      ensures Complete(target, conn, viaProbe, viaTarget, client)
    {
      client := [];
      var err;
      err, viaProbe, viaTarget := EnsureWarm(target);
      warmFailed := err;
      ctxGone := None;
      if err {
        var gone := CtxErr();
        ctxGone := Some(gone);
        if gone {
          return None, viaProbe, viaTarget, [];
        }
      }
      conn, client := DialWarmed(target, viaProbe, viaTarget);
    }
  }

  lemma WarmupSpent(role: Role, viaProbe: seq<Dial>, viaTarget: seq<Dial>, probe: string, target: string, t: Timeouts)
    requires WarmupDials(role, viaProbe, viaTarget, probe, target, t) && t.Positive()
    ensures |viaProbe| + |viaTarget| <= if role == Leader then 6 else 0
    ensures 0 <= Spent(viaProbe) + Spent(viaTarget) <= if role == Leader then 2 * t.Total() else 0
  {
    if role == Leader {
      ColdRetrySpent(viaProbe, probe, t);
      AtMostOneSpent(viaTarget, target, t);
    }
  }

  lemma ClientSpent(warm: bool, client: seq<Dial>, target: string, t: Timeouts)
    requires ClientDials(warm, client, target, t) && t.Positive()
    ensures |client| <= 3 && 0 <= Spent(client) <= t.Total() && (warm ==> |client| == 1)
  {
    if warm {
      assert client[..0] == [];
      assert Spent(client) == client[0].timeout;
    } else {
      ColdRetrySpent(client, target, t);
    }
  }

  /** The budget of a call. A caller that is not the leader dials at most 3 times, a leader at
      most 9 times; an address that was warm both times it was looked up costs one dial; and the
      dial timeouts add up to at most cold + retry + warm for every phase. */
  lemma CallBudget(role: Role, first: Option<bool>, second: Option<bool>,
                   viaProbe: seq<Dial>, viaTarget: seq<Dial>, client: seq<Dial>,
                   probe: string, target: string, t: Timeouts)
    requires CallDials(role, first, second, viaProbe, viaTarget, client, probe, target, t) && t.Positive()
    ensures var ds := viaProbe + viaTarget + client;
      && |ds| <= (if role == Leader then 9 else 3)
      && (first == Some(true) && second != Some(false) ==> |ds| == 1)
      && Spent(ds) <= (if role == Leader then 3 else 1) * t.Total()
      && (t == Timeouts(COLD_DIAL_TIMEOUT, WARMUP_RETRY_TIMEOUT, WARM_DIAL_TIMEOUT) ==> Spent(ds) <= 69)
  {
    SpentConcat(viaProbe + viaTarget, client);
    SpentConcat(viaProbe, viaTarget);
    WarmupSpent(role, viaProbe, viaTarget, probe, target, t);
    if client != [] { ClientSpent(second.value, client, target, t); }
  }
}
