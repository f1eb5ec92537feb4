/**
 Any number of goroutines inside `ensureWarm` (internal/proxy/dial.go) at once. Each locked
 section of the cache is one atomic action; closing the channel, waking up and giving up on
 waiting are actions of their own. A run is an arbitrary sequence of enabled actions.
 */
module SingleFlight {
  import opened Text
  import opened WarmCache

  /** Where a caller is between entering and leaving ensureWarm. */
  datatype Caller =
    | Entering(ip: IP)                       // before cache.Seen
    | Missed(ip: IP)                         // Seen said no; before beginConfirm
    | Leading(ip: IP, done: Chan)            // runs the warmup
    | Closing(waiter: Option<Chan>)          // left the locked section of finishConfirm
    | Waiting(ip: IP, done: Chan)            // blocked on the leader's channel
    | Returned

  datatype Action =
    | Spawn(ip: IP)
    | Tick(time: int)
    | Look(c: nat)
    | Begin(c: nat)
    | Finish(c: nat, succeeded: bool, evictAt: int)
    | CloseDone(c: nat)
    | Wake(c: nat)
    | GiveUp(c: nat)

  datatype System = System(
    ttl: int, maxSize: nat, now: int,
    entries: map<IP, int>, inFlight: map<IP, Chan>,
    callers: seq<Caller>, closed: set<Chan>, nextChan: Chan,
    marks: set<(IP, int)>, panicked: bool)

  ghost predicate Initial(s: System) {
    && 0 < s.ttl && 0 < s.maxSize
    && s.entries == map[] && s.inFlight == map[] && s.callers == [] && s.closed == {} && s.nextChan == 0
    && s.marks == {} && !s.panicked
  }

  ghost predicate Enabled(s: System, a: Action) {
    match a
    case Spawn(_) => true
    case Tick(t) => s.now <= t
    case Look(c) => c < |s.callers| && s.callers[c].Entering?
    case Begin(c) => c < |s.callers| && s.callers[c].Missed?
    case Finish(c, _, _) => c < |s.callers| && s.callers[c].Leading?
    case CloseDone(c) => c < |s.callers| && s.callers[c].Closing?
    case Wake(c) => c < |s.callers| && s.callers[c].Waiting? && s.callers[c].done in s.closed
    case GiveUp(c) => c < |s.callers| && s.callers[c].Waiting?
  }

  function Move(s: System, c: nat, to: Caller): System
    requires c < |s.callers|
  {
    s.(callers := s.callers[c := to])
  }

  function Looked(s: System, ip: IP): System {
    s.(entries := Probed(s.entries, s.ttl, s.now, ip))
  }

  function Led(s: System, c: nat, ip: IP): System
    requires c < |s.callers|
  {
    s.(callers := s.callers[c := Leading(ip, s.nextChan)],
       inFlight := s.inFlight[ip := s.nextChan],
       nextChan := s.nextChan + 1)
  }

  function Confirmed(s: System, ip: IP, evictAt: int): System {
    s.(entries := Marked(s.entries, s.ttl, s.maxSize, evictAt, s.now, ip), marks := s.marks + {(ip, s.now)})
  }

  function Finished(s: System, c: nat): System
    requires c < |s.callers| && s.callers[c].Leading?
  {
    var ip := s.callers[c].ip;
    s.(callers := s.callers[c := Closing(if ip in s.inFlight then Some(s.inFlight[ip]) else None)],
       inFlight := s.inFlight - {ip})
  }

  function Closed(s: System, c: nat): System
    requires c < |s.callers| && s.callers[c].Closing?
  {
    var waiter := s.callers[c].waiter;
    if waiter.None? then Move(s, c, Returned)
    else s.(callers := s.callers[c := Returned],
            closed := s.closed + {waiter.value},
            panicked := s.panicked || waiter.value in s.closed)
  }

  ghost function Step(s: System, a: Action): System
    requires Enabled(s, a)
  {
    match a
    case Spawn(ip) => s.(callers := s.callers + [Entering(ip)])
    case Tick(t) => s.(now := t)
    case Look(c) =>
      var ip := s.callers[c].ip;
      Move(Looked(s, ip), c, if Warm(s.entries, s.ttl, s.now, ip) then Returned else Missed(ip))
    case Begin(c) =>
      var ip := s.callers[c].ip;
      if Warm(s.entries, s.ttl, s.now, ip) then Move(Looked(s, ip), c, Returned)
      else if ip in s.inFlight then Move(Looked(s, ip), c, Waiting(ip, s.inFlight[ip]))
      else Led(Looked(s, ip), c, ip)
    case Finish(c, succeeded, evictAt) =>
      Finished(if succeeded then Confirmed(s, s.callers[c].ip, evictAt) else s, c)
    case CloseDone(c) => Closed(s, c)
    case Wake(c) => Move(s, c, Returned)
    case GiveUp(c) => Move(s, c, Returned)
  }

  ghost predicate IsRun(s: System, actions: seq<Action>)
    decreases |actions|
  {
    actions == [] || (Enabled(s, actions[0]) && IsRun(Step(s, actions[0]), actions[1..]))
  }

  ghost function After(s: System, actions: seq<Action>): System
    requires IsRun(s, actions)
    decreases |actions|
  {
    if actions == [] then s else After(Step(s, actions[0]), actions[1..])
  }

  // ---------------------------------------------------------------- the invariant

  /** The caller that is going to close the channel: it leads, or has just stopped leading. */
  predicate Owns(s: System, c: nat, done: Chan) {
    && c < |s.callers|
    && (s.callers[c].Leading? || s.callers[c].Closing?)
    && (s.callers[c].Leading? ==> s.callers[c].done == done)
    && (s.callers[c].Closing? ==> s.callers[c].waiter == Some(done))
  }

  ghost predicate HasOwner(s: System, done: Chan) {
    exists c: nat :: Owns(s, c, done)
  }

  ghost predicate InFlightIsLed(s: System) {
    forall ip | ip in s.inFlight ::
      exists c: nat :: Owns(s, c, s.inFlight[ip]) && s.callers[c] == Leading(ip, s.inFlight[ip])
  }

  ghost predicate LeadersAreInFlight(s: System) {
    forall c | 0 <= c < |s.callers| && s.callers[c].Leading? ::
      s.callers[c].ip in s.inFlight && s.inFlight[s.callers[c].ip] == s.callers[c].done
  }

  ghost predicate ClosersHaveWaiters(s: System) {
    forall c | 0 <= c < |s.callers| && s.callers[c].Closing? :: s.callers[c].waiter.Some?
  }

  ghost predicate OwnersAreUnique(s: System) {
    && (forall c: nat, d: nat, done: Chan :: Owns(s, c, done) && Owns(s, d, done) ==> c == d)
    && (forall c: nat, done: Chan :: Owns(s, c, done) ==> done < s.nextChan && done !in s.closed)
    && (forall done | done in s.closed :: done < s.nextChan)
  }

  ghost predicate WaitersAreServed(s: System) {
    forall c | 0 <= c < |s.callers| && s.callers[c].Waiting? ::
      s.callers[c].done < s.nextChan && (s.callers[c].done in s.closed || HasOwner(s, s.callers[c].done))
  }

  ghost predicate CacheIsSound(s: System) {
    && 0 < s.ttl && 0 < s.maxSize
    && |s.entries| <= s.maxSize
    && (forall ip | ip in s.entries :: (ip, s.entries[ip]) in s.marks)
    && (forall m | m in s.marks :: m.1 <= s.now)
  }

  ghost predicate Inv(s: System) {
    && InFlightIsLed(s) && LeadersAreInFlight(s) && ClosersHaveWaiters(s) && OwnersAreUnique(s)
    && WaitersAreServed(s) && CacheIsSound(s) && !s.panicked
  }

  /** A channel in flight stays led when its leader has not moved. */
  lemma StillLed(s: System, t: System, k: IP)
    requires InFlightIsLed(s) && k in s.inFlight && k in t.inFlight && t.inFlight[k] == s.inFlight[k]
    requires forall o: nat | o < |s.callers| && s.callers[o] == Leading(k, s.inFlight[k]) ::
      o < |t.callers| && t.callers[o] == s.callers[o]
    ensures exists c: nat :: Owns(t, c, t.inFlight[k]) && t.callers[c] == Leading(k, t.inFlight[k])
  {
    var o: nat :| Owns(s, o, s.inFlight[k]) && s.callers[o] == Leading(k, s.inFlight[k]);
    assert Owns(t, o, t.inFlight[k]);
  }

  /** A channel stays served when its owner still owns it or has closed it. */
  lemma StillServed(s: System, t: System, done: Chan)
    requires done in s.closed || HasOwner(s, done)
    requires s.closed <= t.closed
    requires forall o: nat | Owns(s, o, done) :: Owns(t, o, done) || done in t.closed
    ensures done in t.closed || HasOwner(t, done)
  {
    if done !in t.closed {
      var o: nat :| Owns(s, o, done);
      assert Owns(t, o, done);
    }
  }

  lemma CacheMayChange(s: System, t: System)
    requires Inv(s) && CacheIsSound(t)
    requires t == s.(entries := t.entries, marks := t.marks, now := t.now)
    ensures Inv(t)
  {
    forall o: nat, done ensures Owns(t, o, done) <==> Owns(s, o, done) {}
    forall k | k in t.inFlight
      ensures exists c: nat :: Owns(t, c, t.inFlight[k]) && t.callers[c] == Leading(k, t.inFlight[k])
    {
      StillLed(s, t, k);
    }
    forall w | 0 <= w < |t.callers| && t.callers[w].Waiting?
      ensures t.callers[w].done in t.closed || HasOwner(t, t.callers[w].done)
    {
      StillServed(s, t, t.callers[w].done);
    }
  }

  lemma LookedKeepsInv(s: System, ip: IP)
    requires Inv(s)
    ensures Inv(Looked(s, ip))
  {
    KeysSmaller(Looked(s, ip).entries, s.entries);
    CacheMayChange(s, Looked(s, ip));
  }

  lemma ConfirmedKeepsInv(s: System, ip: IP, evictAt: int)
    requires Inv(s)
    ensures Inv(Confirmed(s, ip, evictAt))
  {
    MarkedFacts(s.entries, s.ttl, s.maxSize, evictAt, s.now, ip);
    CacheMayChange(s, Confirmed(s, ip, evictAt));
  }

  /** A caller that owns no channel before or after its move disturbs nobody. */
  lemma QuietMoveKeepsInv(s: System, c: nat, to: Caller)
    requires Inv(s) && c < |s.callers| && !s.callers[c].Leading? && !s.callers[c].Closing?
    requires !to.Leading? && !to.Closing?
    requires to.Waiting? ==> to.done < s.nextChan && HasOwner(s, to.done)
    ensures Inv(Move(s, c, to))
  {
    var t := Move(s, c, to);
    forall o: nat, done ensures Owns(t, o, done) <==> Owns(s, o, done) {}
    forall k | k in t.inFlight
      ensures exists c: nat :: Owns(t, c, t.inFlight[k]) && t.callers[c] == Leading(k, t.inFlight[k])
    {
      StillLed(s, t, k);
    }
    forall w | 0 <= w < |t.callers| && t.callers[w].Waiting?
      ensures t.callers[w].done in t.closed || HasOwner(t, t.callers[w].done)
    {
      StillServed(s, t, t.callers[w].done);
    }
  }

  lemma SpawnKeepsInv(s: System, ip: IP)
    requires Inv(s)
    ensures Inv(Step(s, Spawn(ip)))
  {
    var t := Step(s, Spawn(ip));
    forall o: nat, done ensures Owns(t, o, done) <==> Owns(s, o, done) {}
    forall k | k in t.inFlight
      ensures exists c: nat :: Owns(t, c, t.inFlight[k]) && t.callers[c] == Leading(k, t.inFlight[k])
    {
      StillLed(s, t, k);
    }
    forall w | 0 <= w < |t.callers| && t.callers[w].Waiting?
      ensures t.callers[w].done in t.closed || HasOwner(t, t.callers[w].done)
    {
      StillServed(s, t, t.callers[w].done);
    }
  }

  lemma LedKeepsInv(s: System, c: nat, ip: IP)
    requires Inv(s) && c < |s.callers| && s.callers[c].Missed? && ip !in s.inFlight
    ensures Inv(Led(s, c, ip))
  {
    var t := Led(s, c, ip);
    forall o: nat, done ensures Owns(t, o, done) <==> Owns(s, o, done) || (o == c && done == s.nextChan) {}
    forall k | k in t.inFlight
      ensures exists c: nat :: Owns(t, c, t.inFlight[k]) && t.callers[c] == Leading(k, t.inFlight[k])
    {
      if k == ip {
        assert Owns(t, c, t.inFlight[k]);
      } else {
        StillLed(s, t, k);
      }
    }
    forall w | 0 <= w < |t.callers| && t.callers[w].Waiting?
      ensures t.callers[w].done in t.closed || HasOwner(t, t.callers[w].done)
    {
      StillServed(s, t, t.callers[w].done);
    }
  }

  lemma OtherLeaderHasOtherAddress(s: System, c: nat, d: nat)
    requires LeadersAreInFlight(s) && OwnersAreUnique(s)
    requires c < |s.callers| && s.callers[c].Leading? && d < |s.callers| && s.callers[d].Leading? && c != d
    ensures s.callers[c].ip != s.callers[d].ip
  {
    assert Owns(s, c, s.callers[c].done) && Owns(s, d, s.callers[d].done);
  }

  lemma FinishedOwners(s: System, c: nat, o: nat, done: Chan)
    requires LeadersAreInFlight(s) && c < |s.callers| && s.callers[c].Leading?
    ensures Owns(Finished(s, c), o, done) <==> Owns(s, o, done)
  {
  }

  lemma FinishedKeepsInv(s: System, c: nat)
    requires Inv(s) && c < |s.callers| && s.callers[c].Leading?
    ensures Inv(Finished(s, c))
  {
    var t := Finished(s, c);
    forall o: nat, done ensures Owns(t, o, done) <==> Owns(s, o, done) {
      FinishedOwners(s, c, o, done);
    }
    forall k | k in t.inFlight
      ensures exists c: nat :: Owns(t, c, t.inFlight[k]) && t.callers[c] == Leading(k, t.inFlight[k])
    {
      StillLed(s, t, k);
    }
    forall d | 0 <= d < |t.callers| && t.callers[d].Leading?
      ensures t.callers[d].ip in t.inFlight && t.inFlight[t.callers[d].ip] == t.callers[d].done
    {
      OtherLeaderHasOtherAddress(s, c, d);
    }
    forall w | 0 <= w < |t.callers| && t.callers[w].Waiting?
      ensures t.callers[w].done in t.closed || HasOwner(t, t.callers[w].done)
    {
      StillServed(s, t, t.callers[w].done);
    }
  }

  lemma ClosedKeepsInv(s: System, c: nat)
    requires Inv(s) && c < |s.callers| && s.callers[c].Closing?
    ensures Inv(Closed(s, c))
  {
    var t := Closed(s, c);
    var w := s.callers[c].waiter.value;
    assert Owns(s, c, w);
    forall o: nat, done ensures Owns(t, o, done) <==> Owns(s, o, done) && o != c {}
    forall k | k in t.inFlight
      ensures exists c: nat :: Owns(t, c, t.inFlight[k]) && t.callers[c] == Leading(k, t.inFlight[k])
    {
      StillLed(s, t, k);
    }
    forall w | 0 <= w < |t.callers| && t.callers[w].Waiting?
      ensures t.callers[w].done in t.closed || HasOwner(t, t.callers[w].done)
    {
      StillServed(s, t, t.callers[w].done);
    }
  }

  lemma BegunKeepsInv(s: System, c: nat)
    requires Inv(s) && Enabled(s, Begin(c))
    ensures Inv(Step(s, Begin(c)))
  {
    var ip := s.callers[c].ip;
    var t := Looked(s, ip);
    LookedKeepsInv(s, ip);
    if Warm(s.entries, s.ttl, s.now, ip) {
      QuietMoveKeepsInv(t, c, Returned);
    } else if ip in s.inFlight {
      var o: nat :| Owns(t, o, t.inFlight[ip]) && t.callers[o] == Leading(ip, t.inFlight[ip]);
      QuietMoveKeepsInv(t, c, Waiting(ip, t.inFlight[ip]));
    } else {
      LedKeepsInv(t, c, ip);
    }
  }

  lemma StepKeepsInv(s: System, a: Action)
    requires Inv(s) && Enabled(s, a)
    ensures Inv(Step(s, a))
  {
    match a
    case Spawn(ip) => SpawnKeepsInv(s, ip);
    case Tick(_) => CacheMayChange(s, Step(s, a));
    case Look(c) =>
      LookedKeepsInv(s, s.callers[c].ip);
      QuietMoveKeepsInv(Looked(s, s.callers[c].ip), c, Step(s, a).callers[c]);
    case Begin(c) => BegunKeepsInv(s, c);
    case Finish(c, succeeded, evictAt) =>
      if succeeded {
        ConfirmedKeepsInv(s, s.callers[c].ip, evictAt);
        FinishedKeepsInv(Confirmed(s, s.callers[c].ip, evictAt), c);
      } else {
        FinishedKeepsInv(s, c);
      }
    case CloseDone(c) => ClosedKeepsInv(s, c);
    case Wake(c) => QuietMoveKeepsInv(s, c, Returned);
    case GiveUp(c) => QuietMoveKeepsInv(s, c, Returned);
  }

  /** Every state of every run satisfies the invariant. */
  lemma {:induction false} RunKeepsInv(s: System, actions: seq<Action>)
    requires Inv(s) && IsRun(s, actions)
    ensures Inv(After(s, actions))
    decreases |actions|
  {
    if actions != [] {
      StepKeepsInv(s, actions[0]);
      RunKeepsInv(Step(s, actions[0]), actions[1..]);
    }
  }

  // ---------------------------------------------------------------- what it means

  predicate Leads(s: System, c: nat, ip: IP) {
    c < |s.callers| && s.callers[c].Leading? && s.callers[c].ip == ip
  }

  /** Safety of the single flight, in every state any run can reach: an address has at most one
      leader, no channel was closed twice, a channel in flight is open and belongs to a leader,
      and a waiter's channel is closed already or some caller is still going to close it. */
  lemma {:induction false} SingleFlightSafety(s0: System, actions: seq<Action>)
    requires Initial(s0) && IsRun(s0, actions)
    ensures var s := After(s0, actions);
      && !s.panicked
      && (forall c: nat, d: nat, ip :: Leads(s, c, ip) && Leads(s, d, ip) ==> c == d)
      && (forall ip | ip in s.inFlight :: s.inFlight[ip] !in s.closed && exists c: nat :: Leads(s, c, ip))
      && (forall c | 0 <= c < |s.callers| && s.callers[c].Waiting? ::
            s.callers[c].done in s.closed || HasOwner(s, s.callers[c].done))
  {
    RunKeepsInv(s0, actions);
    var s := After(s0, actions);
    forall c: nat, d: nat, ip | Leads(s, c, ip) && Leads(s, d, ip) ensures c == d {
      if c != d { OtherLeaderHasOtherAddress(s, c, d); }
    }
    forall ip | ip in s.inFlight
      ensures s.inFlight[ip] !in s.closed && exists c: nat :: Leads(s, c, ip)
    {
      var c: nat :| Owns(s, c, s.inFlight[ip]) && s.callers[c] == Leading(ip, s.inFlight[ip]);
      assert Leads(s, c, ip);
    }
  }

  /** Once every caller has returned, nothing is in flight. */
  lemma {:induction false} QuiescentIsEmpty(s0: System, actions: seq<Action>)
    requires Initial(s0) && IsRun(s0, actions)
    requires forall c | 0 <= c < |After(s0, actions).callers| :: After(s0, actions).callers[c].Returned?
    ensures After(s0, actions).inFlight == map[]
  {
    RunKeepsInv(s0, actions);
    var s := After(s0, actions);
    if ip :| ip in s.inFlight {
      assert false;
    }
  }

  /** Some leader for ip finished its warmup successfully at a moment between from and to. */
  ghost predicate ConfirmedWithin(s: System, actions: seq<Action>, ip: IP, from: int, to: int)
    requires IsRun(s, actions)
    decreases |actions|
  {
    actions != [] &&
    (|| (actions[0].Finish? && actions[0].succeeded && Leads(s, actions[0].c, ip) && from <= s.now <= to)
     || ConfirmedWithin(Step(s, actions[0]), actions[1..], ip, from, to))
  }

  lemma {:induction false} MarksAreConfirmations(s: System, actions: seq<Action>, m: (IP, int))
    requires Inv(s) && IsRun(s, actions) && m in After(s, actions).marks && m !in s.marks
    ensures forall from, to :: from <= m.1 <= to ==> ConfirmedWithin(s, actions, m.0, from, to)
    decreases |actions|
  {
    var a := actions[0];
    if m !in Step(s, a).marks {
      StepKeepsInv(s, a);
      MarksAreConfirmations(Step(s, a), actions[1..], m);
    }
  }

  /** The cache in every reachable state: it is bounded, and an address counts as warm only if
      it was confirmed at most ttl ago. */
  lemma {:induction false} WarmMeansConfirmed(s0: System, actions: seq<Action>, ip: IP)
    requires Initial(s0) && IsRun(s0, actions)
    ensures var s := After(s0, actions);
      && |s.entries| <= s.maxSize
      && (Warm(s.entries, s.ttl, s.now, ip) ==> ConfirmedWithin(s0, actions, ip, s.now - s.ttl, s.now))
  {
    RunKeepsInv(s0, actions);
    var s := After(s0, actions);
    if Warm(s.entries, s.ttl, s.now, ip) {
      assert (ip, s.entries[ip]) in s.marks;
      MarksAreConfirmations(s0, actions, (ip, s.entries[ip]));
    }
  }

  /** A successful confirmation finds room, at once or after dropping what has expired; the
      clock does not go back between dropping and marking. */
  predicate FindsRoom(s: System, a: Action) {
    a.Finish? && a.succeeded ==>
      || |s.entries| < s.maxSize
      || (a.evictAt <= s.now && |set u | u in s.entries && a.evictAt - s.entries[u] <= s.ttl| < s.maxSize)
  }

  ghost predicate NeverFull(s: System, actions: seq<Action>)
    requires IsRun(s, actions)
    decreases |actions|
  {
    actions == [] || (FindsRoom(s, actions[0]) && NeverFull(Step(s, actions[0]), actions[1..]))
  }

  /** Some leader for ip finished its warmup successfully at `from` or later, and the cache was
      never full since. */
  ghost predicate ConfirmedAndKept(s: System, actions: seq<Action>, ip: IP, from: int)
    requires IsRun(s, actions)
    decreases |actions|
  {
    actions != [] &&
    var rest := actions[1..];
    (|| (&& actions[0].Finish? && actions[0].succeeded && Leads(s, actions[0].c, ip) && from <= s.now
         && NeverFull(Step(s, actions[0]), rest))
     || ConfirmedAndKept(Step(s, actions[0]), rest, ip, from))
  }

  lemma StepKeepsLimits(s: System, a: Action)
    requires Enabled(s, a)
    ensures var t := Step(s, a); t.ttl == s.ttl && t.maxSize == s.maxSize && s.now <= t.now
  {
  }

  lemma {:induction false} TimeGoesOn(s: System, actions: seq<Action>)
    requires IsRun(s, actions)
    ensures s.now <= After(s, actions).now && After(s, actions).ttl == s.ttl
    decreases |actions|
  {
    if actions != [] {
      StepKeepsLimits(s, actions[0]);
      TimeGoesOn(Step(s, actions[0]), actions[1..]);
    }
  }

  lemma MarkingKeeps(entries: map<IP, int>, ttl: int, maxSize: nat, evictAt: int, now: int, marked: IP, ip: IP, t: int)
    requires 0 < maxSize && ip in entries && t <= entries[ip] && t <= now <= t + ttl
    requires || |entries| < maxSize
             || (evictAt <= now && |set u | u in entries && evictAt - entries[u] <= ttl| < maxSize)
    ensures var e := Marked(entries, ttl, maxSize, evictAt, now, marked); ip in e && t <= e[ip]
  {
    MarkedFacts(entries, ttl, maxSize, evictAt, now, marked);
  }

  /** A step that finds room leaves an entry no older than t there until t + ttl is over. */
  lemma StepKeepsEntry(s: System, a: Action, ip: IP, t: int)
    requires Enabled(s, a) && 0 < s.maxSize && FindsRoom(s, a)
    requires ip in s.entries && t <= s.entries[ip] && t <= s.now <= t + s.ttl
    ensures var e := Step(s, a).entries; ip in e && t <= e[ip]
  {
    if a.Finish? && a.succeeded {
      MarkingKeeps(s.entries, s.ttl, s.maxSize, a.evictAt, s.now, s.callers[a.c].ip, ip, t);
    }
  }

  lemma {:induction false} RunKeepsEntry(s: System, actions: seq<Action>, ip: IP, t: int)
    requires IsRun(s, actions) && 0 < s.maxSize && NeverFull(s, actions)
    requires ip in s.entries && t <= s.entries[ip] && t <= s.now
    requires After(s, actions).now <= t + s.ttl
    ensures var f := After(s, actions); ip in f.entries && t <= f.entries[ip]
    decreases |actions|
  {
    TimeGoesOn(s, actions);
    if actions != [] {
      StepKeepsEntry(s, actions[0], ip, t);
      RunKeepsEntry(Step(s, actions[0]), actions[1..], ip, t);
    }
  }

  lemma ConfirmedNow(s: System, a: Action, ip: IP)
    requires Enabled(s, a) && 0 < s.maxSize
    requires a.Finish? && a.succeeded && Leads(s, a.c, ip)
    ensures var t := Step(s, a); ip in t.entries && t.entries[ip] == t.now == s.now
  {
    MarkedFacts(s.entries, s.ttl, s.maxSize, a.evictAt, s.now, ip);
  }

  /** The converse of WarmMeansConfirmed: an address confirmed at most ttl ago is warm as long as
      the cache was never full since. */
  lemma {:induction false} ConfirmedMeansWarm(s: System, actions: seq<Action>, ip: IP)
    requires 0 < s.maxSize && IsRun(s, actions)
    requires ConfirmedAndKept(s, actions, ip, After(s, actions).now - s.ttl)
    ensures var f := After(s, actions); ip in f.entries && f.now - f.entries[ip] <= s.ttl
    decreases |actions|
  {
    var a, rest, s1 := actions[0], actions[1..], Step(s, actions[0]);
    StepKeepsLimits(s, a);
    if ConfirmedAndKept(s1, rest, ip, After(s, actions).now - s.ttl) {
      ConfirmedMeansWarm(s1, rest, ip);
    } else {
      ConfirmedNow(s, a, ip);
      RunKeepsEntry(s1, rest, ip, s.now);
    }
  }

  lemma {:induction false} ConfirmedIsKept(s: System, actions: seq<Action>, ip: IP, from: int, to: int)
    requires IsRun(s, actions) && NeverFull(s, actions) && ConfirmedWithin(s, actions, ip, from, to)
    ensures ConfirmedAndKept(s, actions, ip, from)
    decreases |actions|
  {
    if !(actions[0].Finish? && actions[0].succeeded && Leads(s, actions[0].c, ip) && from <= s.now <= to) {
      ConfirmedIsKept(Step(s, actions[0]), actions[1..], ip, from, to);
    }
  }

  /** While the cache never fills, an address counts as warm exactly when it was confirmed at
      most ttl ago. */
  lemma {:induction false} WarmIffConfirmed(s0: System, actions: seq<Action>, ip: IP)
    requires Initial(s0) && IsRun(s0, actions) && NeverFull(s0, actions)
    ensures var s := After(s0, actions);
      (ip in s.entries && s.now - s.entries[ip] <= s0.ttl)
      <==> ConfirmedWithin(s0, actions, ip, s.now - s0.ttl, s.now)
  {
    TimeGoesOn(s0, actions);
    var now := After(s0, actions).now;
    WarmMeansConfirmed(s0, actions, ip);
    if ConfirmedWithin(s0, actions, ip, now - s0.ttl, now) {
      ConfirmedIsKept(s0, actions, ip, now - s0.ttl, now);
      ConfirmedMeansWarm(s0, actions, ip);
    }
  }

  /** So it is what decides whether ensureWarm returns at its first look at the cache. */
  lemma {:induction false} ConfirmedReturnsAtOnce(s0: System, actions: seq<Action>, c: nat)
    requires Initial(s0) && IsRun(s0, actions) && NeverFull(s0, actions) && Enabled(After(s0, actions), Look(c))
    ensures var s := After(s0, actions);
      Step(s, Look(c)).callers[c].Returned?
      <==> ConfirmedWithin(s0, actions, s.callers[c].ip, s.now - s0.ttl, s.now)
  {
    TimeGoesOn(s0, actions);
    WarmIffConfirmed(s0, actions, After(s0, actions).callers[c].ip);
  }

  // ---------------------------------------------------------------- progress

  function Rank(c: Caller): nat {
    match c
    case Entering(_) => 4
    case Missed(_) => 3
    case Leading(_, _) => 2
    case Closing(_) => 1
    case Waiting(_, _) => 1
    case Returned => 0
  }

  function Work(callers: seq<Caller>): nat {
    if callers == [] then 0 else Rank(callers[0]) + Work(callers[1..])
  }

  predicate IsCallerAction(a: Action) { !a.Spawn? && !a.Tick? }

  lemma {:induction false} WorkAfterMove(callers: seq<Caller>, c: nat, to: Caller)
    requires c < |callers|
    ensures Work(callers[c := to]) == Work(callers) - Rank(callers[c]) + Rank(to)
  {
    if c == 0 {
      assert callers[0 := to][1..] == callers[1..];
    } else {
      WorkAfterMove(callers[1..], c - 1, to);
      assert callers[c := to][1..] == callers[1..][c - 1 := to];
    }
  }

  lemma FinishMovesOne(s: System, c: nat, callers: seq<Caller>)
    requires s.callers == callers && c < |callers| && callers[c].Leading?
    ensures var t := Finished(s, c);
      |t.callers| == |callers| && t.callers == callers[c := t.callers[c]] && t.callers[c].Closing?
  {
  }

  lemma CloseMovesOne(s: System, c: nat)
    requires c < |s.callers| && s.callers[c].Closing?
    ensures Closed(s, c).callers == s.callers[c := Returned]
  {
  }

  lemma StepMovesOne(s: System, a: Action)
    requires Enabled(s, a) && IsCallerAction(a)
    ensures |Step(s, a).callers| == |s.callers|
    ensures var to := Step(s, a).callers[a.c];
      Step(s, a).callers == s.callers[a.c := to] && Rank(to) < Rank(s.callers[a.c])
  {
    match a
    case Look(c) =>
    case Begin(c) =>
    case Finish(c, succeeded, evictAt) =>
      FinishMovesOne(if succeeded then Confirmed(s, s.callers[c].ip, evictAt) else s, c, s.callers);
    case CloseDone(c) => CloseMovesOne(s, c);
    case Wake(c) =>
    case GiveUp(c) =>
  }

  lemma {:induction false} StepDoesWork(s: System, a: Action)
    requires Enabled(s, a) && IsCallerAction(a)
    ensures Work(Step(s, a).callers) < Work(s.callers)
  {
    var to := Step(s, a).callers[a.c];
    StepMovesOne(s, a);
    WorkAfterMove(s.callers, a.c, to);
  }

  function CallerActions(actions: seq<Action>): seq<Action> {
    if actions == [] then []
    else (if IsCallerAction(actions[0]) then [actions[0]] else []) + CallerActions(actions[1..])
  }

  function Spawns(actions: seq<Action>): nat {
    if actions == [] then 0 else (if actions[0].Spawn? then 1 else 0) + Spawns(actions[1..])
  }

  /** How many of the actions are those of one caller. */
  function ActionsOf(actions: seq<Action>, c: nat): nat {
    if actions == [] then 0
    else (if IsCallerAction(actions[0]) && actions[0].c == c then 1 else 0) + ActionsOf(actions[1..], c)
  }

  lemma {:induction false} WorkAfterArrival(callers: seq<Caller>, to: Caller)
    ensures Work(callers + [to]) == Work(callers) + Rank(to)
  {
    if callers == [] {
      assert callers + [to] == [to] && [to][1..] == [];
    } else {
      assert (callers + [to])[1..] == callers[1..] + [to];
      WorkAfterArrival(callers[1..], to);
    }
  }

  /** No caller takes more than four steps, whatever the others do and whoever arrives. */
  lemma {:induction false} CallerIsBounded(s: System, actions: seq<Action>, c: nat)
    requires IsRun(s, actions)
    ensures ActionsOf(actions, c) <= if c < |s.callers| then Rank(s.callers[c]) else 4
    decreases |actions|
  {
    if actions != [] {
      var a := actions[0];
      CallerIsBounded(Step(s, a), actions[1..], c);
      if IsCallerAction(a) { StepMovesOne(s, a); }
    }
  }

  lemma WorkBound(callers: seq<Caller>)
    ensures Work(callers) <= 4 * |callers|
  {
  }

  /** Callers cannot go on for ever: together they take at most as many actions as there is work
      left, and four more for each caller that arrives. */
  lemma {:induction false} RunIsBounded(s: System, actions: seq<Action>)
    requires IsRun(s, actions)
    ensures |CallerActions(actions)| <= Work(s.callers) + 4 * Spawns(actions)
    ensures Work(s.callers) <= 4 * |s.callers|
    decreases |actions|
  {
    WorkBound(s.callers);
    if actions != [] {
      var a := actions[0];
      RunIsBounded(Step(s, a), actions[1..]);
      if IsCallerAction(a) {
        StepDoesWork(s, a);
      } else if a.Spawn? {
        WorkAfterArrival(s.callers, Entering(a.ip));
      }
    }
  }

  /** No deadlock: while some caller has not returned, one of them can act without giving up. */
  lemma SomeoneCanAct(s: System, c: nat) returns (a: Action)
    requires Inv(s) && c < |s.callers| && !s.callers[c].Returned?
    ensures IsCallerAction(a) && !a.GiveUp? && Enabled(s, a)
  {
    match s.callers[c]
    case Entering(_) => a := Look(c);
    case Missed(_) => a := Begin(c);
    case Leading(_, _) => a := Finish(c, false, s.now);
    case Closing(_) => a := CloseDone(c);
    case Waiting(_, done) =>
      if done in s.closed {
        a := Wake(c);
      } else {
        var o: nat :| Owns(s, o, done);
        a := if s.callers[o].Leading? then Finish(o, false, s.now) else CloseDone(o);
      }
  }

  lemma CloseThenWake(s: System, c: nat, o: nat)
    requires Inv(s) && c < |s.callers| && s.callers[c].Waiting? && Owns(s, o, s.callers[c].done)
    requires s.callers[o].Closing?
    ensures IsRun(s, [CloseDone(o)] + [Wake(c)])
  {
    var s1 := Step(s, CloseDone(o));
    assert Enabled(s1, Wake(c));
    assert ([CloseDone(o)] + [Wake(c)])[1..] == [Wake(c)];
    assert [Wake(c)][1..] == [];
    assert IsRun(s1, [Wake(c)]);
  }

  /** No wakeup is lost: when the caller that owns a waiter's channel has taken its remaining
      steps, at most two and whatever the warmup's outcome, the waiter can go on. */
  lemma {:induction false} WaiterIsWoken(s: System, c: nat, o: nat, succeeded: bool, evictAt: int)
    requires Inv(s) && c < |s.callers| && s.callers[c].Waiting? && Owns(s, o, s.callers[c].done)
    ensures var rest := if s.callers[o].Leading? then [Finish(o, succeeded, evictAt), CloseDone(o)] else [CloseDone(o)];
      IsRun(s, rest + [Wake(c)])
  {
    var done := s.callers[c].done;
    if s.callers[o].Leading? {
      var s1 := Step(s, Finish(o, succeeded, evictAt));
      StepKeepsInv(s, Finish(o, succeeded, evictAt));
      assert s1.callers[o] == Closing(Some(done)) && Owns(s1, o, done);
      CloseThenWake(s1, c, o);
      assert ([Finish(o, succeeded, evictAt), CloseDone(o)] + [Wake(c)])[1..] == [CloseDone(o)] + [Wake(c)];
    } else {
      CloseThenWake(s, c, o);
    }
  }

  // ---------------------------------------------------------------- the class takes these steps

  /** The cache object is in the state of the system. */
  ghost predicate Matches(cache: NdpWarmCache, s: System)
    reads cache
  {
    && cache.ttl == s.ttl && cache.maxSize == s.maxSize
    && cache.entries == s.entries && cache.inFlight == s.inFlight
    && cache.nextChan == s.nextChan && cache.closed == s.closed && cache.marks == s.marks
  }

  /** Seen is the step Look: it leaves the cache as the step does, and its answer sends the caller
      where the step does. */
  method LookIsSeen(cache: NdpWarmCache, ghost s: System, ghost c: nat, ip: IP, now: int) returns (seen: bool)
    requires cache.Valid() && Matches(cache, s) && Enabled(s, Look(c)) && s.callers[c].ip == ip && s.now == now
    modifies cache
    ensures cache.Valid() && Matches(cache, Step(s, Look(c)))
    ensures Step(s, Look(c)).callers[c] == if seen then Returned else Missed(ip)
  {
    seen := cache.Seen(Some(ip), now);
  }

  /** beginConfirm is the step Begin. */
  method BeginIsBeginConfirm(cache: NdpWarmCache, ghost s: System, ghost c: nat, ip: IP, now: int) returns (b: Begun)
    requires cache.Valid() && Matches(cache, s) && Enabled(s, Begin(c)) && s.callers[c].ip == ip && s.now == now
    modifies cache
    ensures cache.Valid() && Matches(cache, Step(s, Begin(c)))
    ensures Step(s, Begin(c)).callers[c] ==
      match b { case AlreadyWarm => Returned case Wait(done) => Waiting(ip, done) case Lead(done) => Leading(ip, done) }
  {
    b := cache.BeginConfirm(Some(ip), now);
  }

  /** What the step Finish does to each part of the cache. */
  lemma FinishStep(s: System, c: nat, succeeded: bool, evictAt: int)
    requires Enabled(s, Finish(c, succeeded, evictAt))
    ensures var ip, t := s.callers[c].ip, Step(s, Finish(c, succeeded, evictAt));
      && t.ttl == s.ttl && t.maxSize == s.maxSize && t.nextChan == s.nextChan && t.closed == s.closed
      && t.inFlight == s.inFlight - {ip}
      && t.entries == (if succeeded then Marked(s.entries, s.ttl, s.maxSize, evictAt, s.now, ip) else s.entries)
      && t.marks == s.marks + (if succeeded then {(ip, s.now)} else {})
      && t.callers[c] == Closing(if ip in s.inFlight then Some(s.inFlight[ip]) else None)
  {
  }

  /** The locked section of finishConfirm is the step Finish. */
  method FinishIsFinishLocked(cache: NdpWarmCache, ghost s: System, ghost c: nat, ip: IP,
                              succeeded: bool, evictAt: int, now: int)
    returns (waiter: Option<Chan>)
    requires cache.Valid() && Matches(cache, s) && Enabled(s, Finish(c, succeeded, evictAt))
    requires s.callers[c].ip == ip && s.now == now
    modifies cache
    ensures cache.Valid() && Matches(cache, Step(s, Finish(c, succeeded, evictAt)))
    ensures Step(s, Finish(c, succeeded, evictAt)).callers[c] == Closing(waiter)
  {
    FinishStep(s, c, succeeded, evictAt);
    waiter := cache.FinishLocked(ip, succeeded, evictAt, now);
  }

  lemma CloserMayClose(s: System, c: nat, done: Chan)
    requires Inv(s) && c < |s.callers| && s.callers[c] == Closing(Some(done))
    ensures done < s.nextChan && done !in s.closed && forall k | k in s.inFlight :: s.inFlight[k] != done
  {
    assert Owns(s, c, done);
    forall k | k in s.inFlight ensures s.inFlight[k] != done {
      var o: nat :| Owns(s, o, s.inFlight[k]) && s.callers[o] == Leading(k, s.inFlight[k]);
    }
  }

  /** Closing the channel is the step CloseDone; by the invariant that is allowed. */
  method CloseIsCloseDone(cache: NdpWarmCache, ghost s: System, ghost c: nat, done: Chan)
    requires cache.Valid() && Matches(cache, s) && Inv(s) && Enabled(s, CloseDone(c))
    requires s.callers[c] == Closing(Some(done))
    modifies cache
    ensures cache.Valid() && Matches(cache, Step(s, CloseDone(c)))
    ensures Step(s, CloseDone(c)).callers[c] == Returned
  {
    CloserMayClose(s, c, done);
    cache.CloseChan(done);
  }
}
