/**
 The address pool of internal/ippool/pool.go: prefixes that can be switched on and off, the
 flat list of their addresses, sticky sessions on those addresses and per-domain rules.

 How an address is made from a prefix and a number, the first four bytes of SHA-256, the
 random choice and the clock are parameters. The text form of addresses is taken to be
 one-to-one.
 */
module Pool {
  import opened Text
  import opened Runs
  import IPGen

  type Address = IPGen.Address

  datatype PrefixInfo = PrefixInfo(prefix: string, bits: int, count: int, enabled: bool)

  datatype Strategy = RoundRobin | Random | Other

  datatype DomainRule = DomainRule(count: int, strategy: Strategy, counter: nat, startIdx: nat)

  /** Largest and smallest latency; -1 stands for no smallest one yet. */
  datatype Latency = Latency(max: int, min: int)

  datatype DomainStat = DomainStat(hits: int, latency: Latency, lastSeen: int)

  datatype Session = Session(exitIP: Address, exitIPs: set<Address>, domains: map<string, DomainStat>,
                             totalHits: int, latency: Latency, createdAt: int, lastSeen: int)

  type AllAddrs = map<string, seq<Address>>

  // ---------------------------------------------------------------- addresses of the enabled prefixes

  function AddrsOf(all: AllAddrs, prefix: string): seq<Address> {
    if prefix in all then all[prefix] else []
  }

  /** The addresses of the enabled ones among the first n prefixes, in order. */
  function ActiveAddrs(prefixes: seq<PrefixInfo>, all: AllAddrs, n: nat): seq<Address>
    requires n <= |prefixes|
  {
    if n == 0 then [] else
      var rest := ActiveAddrs(prefixes, all, n - 1);
      if prefixes[n - 1].enabled then rest + AddrsOf(all, prefixes[n - 1].prefix) else rest
  }

  predicate IsActive(prefixes: seq<PrefixInfo>, all: AllAddrs, n: nat, a: Address)
    requires n <= |prefixes|
  {
    exists i | 0 <= i < n :: prefixes[i].enabled && a in AddrsOf(all, prefixes[i].prefix)
  }

  lemma {:induction false} ActiveAddrsMembers(prefixes: seq<PrefixInfo>, all: AllAddrs, n: nat, a: Address)
    requires n <= |prefixes|
    ensures a in ActiveAddrs(prefixes, all, n) <==> IsActive(prefixes, all, n, a)
  {
    if n > 0 {
      ActiveAddrsMembers(prefixes, all, n - 1, a);
    }
  }

  /** The list holds the addresses of each enabled prefix together and in their order, and the
      prefixes in theirs: those of an entry start where those of the entries before it end. */
  lemma {:induction false} ActiveInOrder(prefixes: seq<PrefixInfo>, all: AllAddrs, n: nat, i: nat)
    requires i < n <= |prefixes| && prefixes[i].enabled
    ensures var at, mine := |ActiveAddrs(prefixes, all, i)|, AddrsOf(all, prefixes[i].prefix);
      at + |mine| <= |ActiveAddrs(prefixes, all, n)| && ActiveAddrs(prefixes, all, n)[at..at + |mine|] == mine
  {
    if i < n - 1 {
      ActiveInOrder(prefixes, all, n - 1, i);
      assert ActiveAddrs(prefixes, all, n - 1) <= ActiveAddrs(prefixes, all, n);
    }
  }

  /** The first entry of that name from i on, or the number of entries. */
  function FirstNamed(prefixes: seq<PrefixInfo>, prefix: string, i: nat): (r: nat)
    requires i <= |prefixes|
    ensures i <= r <= |prefixes| && (forall j | i <= j < r :: prefixes[j].prefix != prefix)
    ensures r < |prefixes| ==> prefixes[r].prefix == prefix
    decreases |prefixes| - i
  {
    if i == |prefixes| || prefixes[i].prefix == prefix then i else FirstNamed(prefixes, prefix, i + 1)
  }

  /** The prefixes after a switch. */
  function Switched(prefixes: seq<PrefixInfo>, prefix: string, enabled: bool): (r: seq<PrefixInfo>)
    ensures |r| == |prefixes|
  {
    var i := FirstNamed(prefixes, prefix, 0);
    if i < |prefixes| then prefixes[i := prefixes[i].(enabled := enabled)] else prefixes
  }

  /** Only the first entry of that name changes. */
  lemma SwitchedAt(prefixes: seq<PrefixInfo>, prefix: string, enabled: bool, i: nat)
    requires i < |prefixes|
    ensures Switched(prefixes, prefix, enabled)[i] ==
      if prefixes[i].prefix == prefix && (forall j | 0 <= j < i :: prefixes[j].prefix != prefix)
      then prefixes[i].(enabled := enabled) else prefixes[i]
  {
    var first := FirstNamed(prefixes, prefix, 0);
    if first < i { assert prefixes[first].prefix == prefix; }
  }

  /** After a name is switched off, an entry of that name is still enabled exactly if the name is
      listed again behind its first entry and enabled there. */
  lemma StillEnabledIff(prefixes: seq<PrefixInfo>, prefix: string)
    ensures (exists i | 0 <= i < |prefixes| ::
               Switched(prefixes, prefix, false)[i].prefix == prefix && Switched(prefixes, prefix, false)[i].enabled)
      <==> (exists i | FirstNamed(prefixes, prefix, 0) < i < |prefixes| ::
              prefixes[i].prefix == prefix && prefixes[i].enabled)
  {
    var first, after := FirstNamed(prefixes, prefix, 0), Switched(prefixes, prefix, false);
    assert forall i | 0 <= i < |prefixes| && i != first :: after[i] == prefixes[i];
    if i :| first < i < |prefixes| && prefixes[i].prefix == prefix && prefixes[i].enabled {
      assert after[i].prefix == prefix && after[i].enabled;
    }
    if i :| 0 <= i < |prefixes| && after[i].prefix == prefix && after[i].enabled {
      assert i != first;
      assert prefixes[i].prefix == prefix && prefixes[i].enabled;
    }
  }

  /** An address that is not the switched prefix's own stays active, even if prefixes repeat or
      share addresses; and switching a prefix on takes nothing away. */
  lemma SwitchKeepsActive(prefixes: seq<PrefixInfo>, all: AllAddrs, prefix: string, enabled: bool, a: Address)
    requires IsActive(prefixes, all, |prefixes|, a) && (enabled || a !in AddrsOf(all, prefix))
    ensures IsActive(Switched(prefixes, prefix, enabled), all, |prefixes|, a)
  {
    var i :| 0 <= i < |prefixes| && prefixes[i].enabled && a in AddrsOf(all, prefixes[i].prefix);
    SwitchedAt(prefixes, prefix, enabled, i);
    assert Switched(prefixes, prefix, enabled)[i].enabled;
  }

  // ---------------------------------------------------------------- sessions

  function Noted(l: Latency, latency: int): Latency {
    if latency > 0 then
      Latency(if latency > l.max then latency else l.max, if l.min < 0 || latency < l.min then latency else l.min)
    else l
  }

  /** A session after one more hit. */
  function Touched(s: Session, domain: string, latency: int, now: int): Session {
    var t := s.(totalHits := s.totalHits + 1, lastSeen := now, latency := Noted(s.latency, latency));
    if domain == "" then t else
      var d := if domain in s.domains then s.domains[domain] else DomainStat(0, Latency(0, -1), now);
      t.(domains := s.domains[domain := DomainStat(d.hits + 1, Noted(d.latency, latency), now)])
  }

  /** Either nothing was noted, or the smallest is at most the largest. */
  predicate SoundLatency(l: Latency) { l == Latency(0, -1) || 0 < l.min <= l.max }

  predicate SoundSession(s: Session) {
    && (s.exitIPs == {} || s.exitIP in s.exitIPs)
    && SoundLatency(s.latency)
    && forall d | d in s.domains :: 1 <= s.domains[d].hits <= s.totalHits && SoundLatency(s.domains[d].latency)
  }

  function NewSession(ip: Address, exitIPs: set<Address>, now: int): Session {
    Session(ip, exitIPs, map[], 0, Latency(0, -1), now, now)
  }

  lemma TouchedIsSound(s: Session, domain: string, latency: int, now: int)
    requires SoundSession(s) && 0 <= s.totalHits
    ensures SoundSession(Touched(s, domain, latency, now))
  {
  }

  datatype Hit = Hit(domain: string, latency: int, now: int)

  function AfterHits(s: Session, hits: seq<Hit>): Session {
    if hits == [] then s else
      var h := hits[|hits| - 1];
      Touched(AfterHits(s, hits[..|hits| - 1]), h.domain, h.latency, h.now)
  }

  function CountOf(hits: seq<Hit>, domain: string): nat {
    if hits == [] then 0
    else CountOf(hits[..|hits| - 1], domain) + if hits[|hits| - 1].domain == domain then 1 else 0
  }

  /** The largest and smallest of the positive latencies of these hits. */
  predicate Measures(l: Latency, hits: seq<Hit>) {
    if forall i | 0 <= i < |hits| :: hits[i].latency <= 0 then l == Latency(0, -1)
    else
      && (exists i | 0 <= i < |hits| :: 0 < hits[i].latency == l.max)
      && (exists i | 0 <= i < |hits| :: 0 < hits[i].latency == l.min)
      && forall i | 0 <= i < |hits| && 0 < hits[i].latency :: l.min <= hits[i].latency <= l.max
  }

  lemma NotedMeasures(l: Latency, hits: seq<Hit>, h: Hit)
    requires Measures(l, hits)
    ensures Measures(Noted(l, h.latency), hits + [h])
  {
    var more := hits + [h];
    assert more[|hits|] == h && forall i | 0 <= i < |hits| :: more[i] == hits[i];
    if h.latency > 0 && !(forall i | 0 <= i < |hits| :: hits[i].latency <= 0) {
      var i :| 0 <= i < |hits| && 0 < hits[i].latency == l.max;
      var j :| 0 <= j < |hits| && 0 < hits[j].latency == l.min;
      assert more[i].latency == l.max && more[j].latency == l.min;
    }
  }

  /** What a session shows: how many hits there were, in all and of each domain, the moment of
      the last, and the largest and smallest latency. */
  predicate Shows(s: Session, ip: Address, ips: set<Address>, born: int, hits: seq<Hit>, domain: string) {
    && s.exitIP == ip && s.exitIPs == ips && s.createdAt == born && s.totalHits == |hits|
    && s.lastSeen == (if hits == [] then born else hits[|hits| - 1].now)
    && Measures(s.latency, hits)
    && (domain in s.domains <==> domain != "" && 0 < CountOf(hits, domain))
    && (domain in s.domains ==> s.domains[domain].hits == CountOf(hits, domain))
  }

  lemma CountWithOne(hits: seq<Hit>, h: Hit, domain: string)
    ensures CountOf(hits + [h], domain) == CountOf(hits, domain) + if h.domain == domain then 1 else 0
  {
    assert (hits + [h])[..|hits|] == hits;
  }

  lemma OneMoreShows(s: Session, ip: Address, ips: set<Address>, born: int, hits: seq<Hit>, h: Hit, domain: string)
    requires Shows(s, ip, ips, born, hits, domain)
    ensures Shows(Touched(s, h.domain, h.latency, h.now), ip, ips, born, hits + [h], domain)
  {
    CountWithOne(hits, h, domain);
    NotedMeasures(s.latency, hits, h);
  }

  lemma {:induction false} SessionShows(ip: Address, ips: set<Address>, born: int, hits: seq<Hit>, domain: string)
    ensures Shows(AfterHits(NewSession(ip, ips, born), hits), ip, ips, born, hits, domain)
  {
    if hits != [] {
      var front, h := hits[..|hits| - 1], hits[|hits| - 1];
      SessionShows(ip, ips, born, front, domain);
      OneMoreShows(AfterHits(NewSession(ip, ips, born), front), ip, ips, born, front, h, domain);
      assert front + [h] == hits;
    }
  }

  /** Sessions sit on active addresses. */
  ghost predicate AllOn(sessions: map<string, Session>, addrs: seq<Address>) {
    forall fp | fp in sessions ::
      sessions[fp].exitIP in addrs && SoundSession(sessions[fp]) && 1 <= sessions[fp].totalHits
  }

  /** Deletes the sessions of a kind, one by one. */
  method EndSessions(sessions: map<string, Session>, ends: Session -> bool) returns (kept: map<string, Session>)
    ensures kept == map fp | fp in sessions && !ends(sessions[fp]) :: sessions[fp]
  {
    kept := sessions;
    var todo := sessions.Keys;
    while todo != {}
      invariant todo <= kept.Keys <= sessions.Keys
      invariant forall fp | fp in kept :: kept[fp] == sessions[fp]
      invariant forall fp | fp in sessions && fp !in todo :: fp in kept <==> !ends(sessions[fp])
      decreases |todo|
    {
      var fp :| fp in todo;
      todo := todo - {fp};
      if ends(kept[fp]) {
        kept := kept - {fp};
      }
    }
  }

  /** The sessions on none of these addresses. */
  function NotOn(sessions: map<string, Session>, gone: seq<Address>): map<string, Session> {
    map fp | fp in sessions && sessions[fp].exitIP !in gone :: sessions[fp]
  }

  method EndSessionsOn(sessions: map<string, Session>, gone: seq<Address>) returns (kept: map<string, Session>)
    ensures kept == NotOn(sessions, gone)
  {
    kept := EndSessions(sessions, (s: Session) => s.exitIP in gone);
  }

  lemma StillActive(before: seq<PrefixInfo>, after: seq<PrefixInfo>, all: AllAddrs, sessions: map<string, Session>,
                    prefix: string, enabled: bool)
    requires after == Switched(before, prefix, enabled)
    requires AllOn(sessions, ActiveAddrs(before, all, |before|))
    ensures AllOn(if enabled then sessions else NotOn(sessions, AddrsOf(all, prefix)), ActiveAddrs(after, all, |after|))
    ensures (forall i | 0 <= i < |before| :: before[i].bits <= 128) ==>
      forall i | 0 <= i < |after| :: after[i].bits <= 128
  {
    var kept := if enabled then sessions else NotOn(sessions, AddrsOf(all, prefix));
    forall fp | fp in kept ensures kept[fp].exitIP in ActiveAddrs(after, all, |after|) {
      ActiveAddrsMembers(before, all, |before|, kept[fp].exitIP);
      SwitchKeepsActive(before, all, prefix, enabled, kept[fp].exitIP);
      ActiveAddrsMembers(after, all, |after|, kept[fp].exitIP);
    }
    forall i | 0 <= i < |after| ensures after[i].bits == before[i].bits {
      SwitchedAt(before, prefix, enabled, i);
    }
  }

  // ---------------------------------------------------------------- domain rules

  /** A rule that can be resolved: the source divides by the count, or draws below it. */
  predicate CanResolve(rule: DomainRule) {
    match rule.strategy
    case RoundRobin => rule.count != 0
    case Random => rule.count >= 1
    case Other => true
  }

  /** The slot a rule picks with its counter at seqNo: an index into the list of addresses. */
  function Slot(rule: DomainRule, seqNo: nat, len: nat): (r: nat)
    requires len > 0 && rule.count != 0
    ensures r < len
  {
    (rule.startIdx + seqNo % (if rule.count > len then len else rule.count)) % len
  }

  /** How often a rule picks index k in n resolves from seq on. */
  function Picks(rule: DomainRule, seqNo: nat, n: nat, len: nat, k: nat): nat
    requires len > 0 && rule.count != 0
  {
    if n == 0 then 0
    else Picks(rule, seqNo, n - 1, len, k) + if Slot(rule, seqNo + n - 1, len) == k then 1 else 0
  }

  lemma QuotientUnique(i: int, m: int, q: int, r: int)
    requires 0 < m && 0 <= r < m && i == q * m + r
    ensures i / m == q && i % m == r
  {
    IPGen.QuotientIsUnique(i, m, i / m, i % m, q, r);
  }

  lemma NextRemainder(i: nat, m: nat)
    requires 0 < m
    ensures (i + 1) % m == if i % m == m - 1 then 0 else i % m + 1
    ensures (i + 1) / m == if i % m == m - 1 then i / m + 1 else i / m
  {
    if i % m == m - 1 {
      QuotientUnique(i + 1, m, i / m + 1, 0);
    } else {
      QuotientUnique(i + 1, m, i / m, i % m + 1);
    }
  }

  /** Different offsets below the number of addresses give different indexes. */
  lemma OffsetsDiffer(start: nat, a: nat, b: nat, len: nat)
    requires a < b < len
    ensures (start + a) % len != (start + b) % len
  {
    var x, y := start + a, start + b;
    if x % len == y % len {
      assert (y / len - x / len) * len == b - a;
      IPGen.NoSmallMultiple(y / len - x / len, len);
    }
  }

  lemma {:induction false} RemaindersDiffer(i: nat, d: nat, m: nat)
    requires 0 < d < m
    ensures i % m != (i + d) % m
  {
    OffsetsDiffer(i, 0, d, m);
  }

  /** Any as many consecutive resolves as the rule has slots take different slots. */
  lemma WindowIsDistinct(rule: DomainRule, len: nat, i: nat, j: nat)
    requires len > 0 && rule.count >= 1
    requires i < j < i + (if rule.count > len then len else rule.count)
    ensures Slot(rule, i, len) != Slot(rule, j, len)
  {
    var m := if rule.count > len then len else rule.count;
    RemaindersDiffer(i, j - i, m);
    if i % m < j % m {
      OffsetsDiffer(rule.startIdx, i % m, j % m, len);
    } else {
      OffsetsDiffer(rule.startIdx, j % m, i % m, len);
    }
  }

  /** Numbers below n with remainder k. */
  function Below(n: nat, m: nat, k: nat): int
    requires 0 < m
  {
    n / m + if n % m > k then 1 else 0
  }

  lemma BelowStep(i: nat, m: nat, k: nat)
    requires k < m
    ensures Below(i + 1, m, k) == Below(i, m, k) + if i % m == k then 1 else 0
  {
    NextRemainder(i, m);
  }

  /** A rule picks the slot at offset k exactly when its counter has the remainder k. */
  lemma SlotHits(rule: DomainRule, i: nat, len: nat, m: nat, k: nat)
    requires len > 0 && rule.count >= 1 && m == (if rule.count > len then len else rule.count) && k < m
    ensures Slot(rule, i, len) == (rule.startIdx + k) % len <==> i % m == k
  {
    if i % m < k {
      OffsetsDiffer(rule.startIdx, i % m, k, len);
    } else if i % m > k {
      OffsetsDiffer(rule.startIdx, k, i % m, len);
    }
  }

  /** The index at offset k is picked as often as there are numbers with remainder k. */
  lemma {:induction false} PicksAre(rule: DomainRule, seqNo: nat, n: nat, len: nat, k: nat)
    requires len > 0 && rule.count >= 1
    requires k < if rule.count > len then len else rule.count
    ensures var m := if rule.count > len then len else rule.count;
      Picks(rule, seqNo, n, len, (rule.startIdx + k) % len) == Below(seqNo + n, m, k) - Below(seqNo, m, k)
  {
    if n > 0 {
      var m := if rule.count > len then len else rule.count;
      PicksAre(rule, seqNo, n - 1, len, k);
      BelowStep(seqNo + n - 1, m, k);
      SlotHits(rule, seqNo + n - 1, len, m, k);
    }
  }

  /** However many resolves, from wherever the counter stands: two slots of the rule are picked
      equally often, but for one. */
  lemma RoundRobinIsFair(rule: DomainRule, seqNo: nat, n: nat, len: nat, k: nat, l: nat)
    requires len > 0 && rule.count >= 1
    requires k < (if rule.count > len then len else rule.count) && l < (if rule.count > len then len else rule.count)
    ensures -1 <= Picks(rule, seqNo, n, len, (rule.startIdx + k) % len)
                - Picks(rule, seqNo, n, len, (rule.startIdx + l) % len) <= 1
  {
    PicksAre(rule, seqNo, n, len, k);
    PicksAre(rule, seqNo, n, len, l);
  }

  // ---------------------------------------------------------------- rules over runs of the pool

  /** What resolving goes by: the rules and the number of addresses. */
  datatype RuleState = RuleState(rules: map<string, DomainRule>, len: nat)

  /** All that calls to the pool do to it. */
  datatype RuleOp =
    | Use(domain: string)
    | SetRule(domain: string, rule: DomainRule)
    | DropRule(domain: string)
    | Resize(len: nat)

  function Advanced(rule: DomainRule): DomainRule {
    if rule.strategy == RoundRobin then rule.(counter := rule.counter + 1) else rule
  }

  function ApplyRule(s: RuleState, op: RuleOp): RuleState {
    match op
    case Use(d) => if d in s.rules then s.(rules := s.rules[d := Advanced(s.rules[d])]) else s
    case SetRule(d, rule) => s.(rules := s.rules[d := rule])
    case DropRule(d) => s.(rules := s.rules - {d})
    case Resize(len) => s.(len := len)
  }

  function AfterRules(s: RuleState, calls: Calls<RuleOp>): RuleState {
    match calls
    case NoCalls => s
    case Then(before, op) => ApplyRule(AfterRules(s, before), op)
  }

  /** The calls leave the domain's rule and the number of addresses alone. Other domains may be
      resolved, and their rules set and dropped, in between. */
  predicate Undisturbed(calls: Calls<RuleOp>, domain: string) {
    match calls
    case NoCalls => true
    case Then(before, op) =>
      Undisturbed(before, domain) && !op.Resize? && (op.SetRule? || op.DropRule? ==> op.domain != domain)
  }

  function Uses(calls: Calls<RuleOp>, domain: string): nat {
    match calls
    case NoCalls => 0
    case Then(before, op) => Uses(before, domain) + if op == Use(domain) then 1 else 0
  }

  predicate CanPick(s: RuleState, domain: string) {
    domain in s.rules && s.rules[domain].strategy == RoundRobin && s.rules[domain].count >= 1 && s.len > 0
  }

  /** The index a domain's next resolve picks. */
  function NextSlot(s: RuleState, domain: string): nat
    requires CanPick(s, domain)
  {
    Slot(s.rules[domain], s.rules[domain].counter, s.len)
  }

  /** How many resolves of the domain picked index k in a run. */
  function PicksIn(s: RuleState, calls: Calls<RuleOp>, domain: string, k: nat): nat {
    match calls
    case NoCalls => 0
    case Then(before, op) =>
      var m := AfterRules(s, before);
      PicksIn(s, before, domain, k)
      + if op == Use(domain) && CanPick(m, domain) && NextSlot(m, domain) == k then 1 else 0
  }

  lemma {:induction false} RunKeepsRule(s: RuleState, calls: Calls<RuleOp>, domain: string)
    requires CanPick(s, domain) && Undisturbed(calls, domain)
    ensures var m := AfterRules(s, calls);
      && CanPick(m, domain) && m.len == s.len
      && m.rules[domain] == s.rules[domain].(counter := s.rules[domain].counter + Uses(calls, domain))
  {
    match calls
    case NoCalls =>
    case Then(before, op) => RunKeepsRule(s, before, domain);
  }

  lemma SlotIgnoresCounter(rule: DomainRule, c: nat, len: nat)
    requires len > 0 && rule.count != 0
    ensures Slot(rule.(counter := c), c, len) == Slot(rule, c, len)
  {
  }

  lemma UsePicksNext(s: RuleState, before: Calls<RuleOp>, domain: string)
    requires CanPick(s, domain) && Undisturbed(before, domain)
    ensures var m, rule := AfterRules(s, before), s.rules[domain];
      CanPick(m, domain) && NextSlot(m, domain) == Slot(rule, rule.counter + Uses(before, domain), s.len)
  {
    var rule := s.rules[domain];
    RunKeepsRule(s, before, domain);
    SlotIgnoresCounter(rule, rule.counter + Uses(before, domain), s.len);
  }

  /** In a run that leaves the rule alone, the resolves of its domain take the slots in order. */
  lemma {:induction false} RunPicksInOrder(s: RuleState, calls: Calls<RuleOp>, domain: string, k: nat)
    requires CanPick(s, domain) && Undisturbed(calls, domain)
    ensures PicksIn(s, calls, domain, k)
      == Picks(s.rules[domain], s.rules[domain].counter, Uses(calls, domain), s.len, k)
  {
    match calls
    case NoCalls =>
    case Then(before, op) =>
      RunPicksInOrder(s, before, domain, k);
      if op == Use(domain) {
        UsePicksNext(s, before, domain);
      }
  }

  /** Fairness over whole runs, whatever other calls come in between: two slots of a rule are
      picked equally often, but for one. */
  lemma RunIsFair(s: RuleState, calls: Calls<RuleOp>, domain: string, k: nat, l: nat)
    requires CanPick(s, domain) && Undisturbed(calls, domain)
    requires var m := (if s.rules[domain].count > s.len then s.len else s.rules[domain].count); k < m && l < m
    ensures var start := s.rules[domain].startIdx;
      -1 <= PicksIn(s, calls, domain, (start + k) % s.len) - PicksIn(s, calls, domain, (start + l) % s.len) <= 1
  {
    var rule := s.rules[domain];
    RunPicksInOrder(s, calls, domain, (rule.startIdx + k) % s.len);
    RunPicksInOrder(s, calls, domain, (rule.startIdx + l) % s.len);
    RoundRobinIsFair(rule, rule.counter, Uses(calls, domain), s.len, k, l);
  }

  /** Two resolves of a domain with fewer resolves of it between them than the rule has slots pick
      different ones. */
  lemma RunIsDistinct(s: RuleState, calls: Calls<RuleOp>, domain: string)
    requires CanPick(s, domain) && Undisturbed(calls, domain)
    requires 0 < Uses(calls, domain) < if s.rules[domain].count > s.len then s.len else s.rules[domain].count
    ensures CanPick(AfterRules(s, calls), domain) && NextSlot(s, domain) != NextSlot(AfterRules(s, calls), domain)
  {
    var rule, n := s.rules[domain], Uses(calls, domain);
    RunKeepsRule(s, calls, domain);
    WindowIsDistinct(rule, s.len, rule.counter, rule.counter + n);
    SlotIgnoresCounter(rule, rule.counter + n, s.len);
  }

  // ---------------------------------------------------------------- making addresses

  /** The addresses numbered from..to, without those that do not parse. */
  function Made(make: (string, int) -> Option<Address>, prefix: string, from: int, to: int): seq<Address>
    decreases to - from
  {
    if to <= from then [] else
      var rest := Made(make, prefix, from, to - 1);
      match make(prefix, to - 1)
      case Some(a) => rest + [a]
      case None => rest
  }

  function SpecAddrs(make: (string, int) -> Option<Address>, single: string -> Option<Address>,
                     prefix: string, bits: int, countPer: int): seq<Address> {
    if bits == 128 then match single(prefix) { case Some(a) => [a] case None => [] }
    else Made(make, prefix, 1, countPer + 1)
  }

  function SpecMap(make: (string, int) -> Option<Address>, single: string -> Option<Address>,
                   specs: seq<(string, int)>, countPer: int, n: nat): AllAddrs
    requires n <= |specs|
  {
    if n == 0 then map[] else
      SpecMap(make, single, specs, countPer, n - 1)
        [specs[n - 1].0 := SpecAddrs(make, single, specs[n - 1].0, specs[n - 1].1, countPer)]
  }

  method MakeAll(make: (string, int) -> Option<Address>, prefix: string, from: int, to: int) returns (out: seq<Address>)
    ensures out == Made(make, prefix, from, to)
  {
    out := [];
    var i := from;
    while i < to
      invariant out == Made(make, prefix, from, i) && (from <= i <= to || i == from)
    {
      var ip := make(prefix, i);
      if ip.Some? {
        out := out + [ip.value];
      }
      i := i + 1;
    }
  }

  function InfoOf(spec: (string, int), countPer: int): PrefixInfo {
    PrefixInfo(spec.0, spec.1, if spec.1 == 128 then 1 else countPer, true)
  }

  /** The loop of New. */
  method Populate(make: (string, int) -> Option<Address>, single: string -> Option<Address>,
                  specs: seq<(string, int)>, countPer: int)
    returns (infos: seq<PrefixInfo>, all: AllAddrs)
    ensures |infos| == |specs| && forall i | 0 <= i < |specs| :: infos[i] == InfoOf(specs[i], countPer)
    ensures all == SpecMap(make, single, specs, countPer, |specs|)
  {
    infos, all := [], map[];
    for n := 0 to |specs|
      invariant |infos| == n && forall i | 0 <= i < n :: infos[i] == InfoOf(specs[i], countPer)
      invariant all == SpecMap(make, single, specs, countPer, n)
    {
      var (pfx, bits) := specs[n];
      var pfxAddrs: seq<Address> := [];
      var count := countPer;
      if bits == 128 {
        var ip := single(pfx);
        if ip.Some? {
          pfxAddrs := [ip.value];
        }
        count := 1;
      } else {
        pfxAddrs := MakeAll(make, pfx, 1, countPer + 1);
      }
      infos := infos + [PrefixInfo(pfx, bits, count, true)];
      all := all[pfx := pfxAddrs];
    }
  }

  /** All numbers from `from` on made their address. */
  predicate Numbered(out: seq<Address>, make: (string, int) -> Option<Address>, prefix: string, from: int) {
    forall k | 0 <= k < |out| :: make(prefix, from + k) == Some(out[k])
  }

  lemma {:induction false} MadeIs(make: (string, int) -> Option<Address>, prefix: string, from: int, n: nat, a: Address)
    ensures a in Made(make, prefix, from, from + n) <==> exists i :: from <= i < from + n && make(prefix, i) == Some(a)
    ensures (forall i | from <= i < from + n :: make(prefix, i).Some?) ==>
      |Made(make, prefix, from, from + n)| == n && Numbered(Made(make, prefix, from, from + n), make, prefix, from)
  {
    if n > 0 {
      MadeIs(make, prefix, from, n - 1, a);
      assert from + n - 1 == from + (n - 1);
    }
  }

  lemma {:induction false} LastSpecCounts(make: (string, int) -> Option<Address>, single: string -> Option<Address>,
                                          specs: seq<(string, int)>, countPer: int, n: nat, k: nat)
    requires k < n <= |specs| && forall j | k < j < n :: specs[j].0 != specs[k].0
    ensures AddrsOf(SpecMap(make, single, specs, countPer, n), specs[k].0)
      == SpecAddrs(make, single, specs[k].0, specs[k].1, countPer)
  {
    if k < n - 1 { LastSpecCounts(make, single, specs, countPer, n - 1, k); }
  }

  /** A new pool holds, for every prefix, the addresses numbered 1 to countPer that parse, and for
      a single address that one. Of specs with the same prefix the last counts. */
  lemma NewPoolHolds(make: (string, int) -> Option<Address>, single: string -> Option<Address>,
                     specs: seq<(string, int)>, countPer: nat, k: nat, a: Address)
    requires k < |specs| && forall j | k < j < |specs| :: specs[j].0 != specs[k].0
    ensures var (prefix, bits) := specs[k];
      var mine := AddrsOf(SpecMap(make, single, specs, countPer, |specs|), prefix);
      && (a in mine <==> if bits == 128 then single(prefix) == Some(a)
                         else exists i :: 1 <= i <= countPer && make(prefix, i) == Some(a))
      && (bits == 128 ==> |mine| <= 1)
      && (bits != 128 && (forall i | 1 <= i <= countPer :: make(prefix, i).Some?) ==>
            |mine| == countPer && Numbered(mine, make, prefix, 1))
  {
    LastSpecCounts(make, single, specs, countPer, |specs|, k);
    MadeIs(make, specs[k].0, 1, countPer, a);
  }

  // ---------------------------------------------------------------- repeated addresses

  predicate NoRepeats(addrs: seq<Address>) {
    forall i, j | 0 <= i < j < |addrs| :: addrs[i] != addrs[j]
  }

  lemma DistinctIndexes(addrs: seq<Address>, i: nat, j: nat)
    requires NoRepeats(addrs) && i < |addrs| && j < |addrs| && i != j
    ensures addrs[i] != addrs[j]
  {
    if i < j { assert addrs[i] != addrs[j]; } else { assert addrs[j] != addrs[i]; }
  }

  lemma SlotOfWhole(rule: DomainRule, len: nat, i: nat)
    requires rule.startIdx == 0 && rule.count == len && i < len
    ensures Slot(rule, i, len) == i
  {
    QuotientUnique(i, len, 0, i);
  }

  /** The addresses at those indexes differ, for every rule and wherever its counter stands, if and
      only if the list names no address twice. */
  lemma AddressesDifferIff(addrs: seq<Address>)
    requires addrs != []
    ensures (forall rule: DomainRule, i: nat, j: nat
               | rule.count >= 1 && i < j < i + (if rule.count > |addrs| then |addrs| else rule.count) ::
               addrs[Slot(rule, i, |addrs|)] != addrs[Slot(rule, j, |addrs|)])
      <==> NoRepeats(addrs)
  {
    var n := |addrs|;
    if NoRepeats(addrs) {
      forall rule: DomainRule, i: nat, j: nat
        | rule.count >= 1 && i < j < i + (if rule.count > n then n else rule.count)
        ensures addrs[Slot(rule, i, n)] != addrs[Slot(rule, j, n)]
      {
        WindowIsDistinct(rule, n, i, j);
        DistinctIndexes(addrs, Slot(rule, i, n), Slot(rule, j, n));
      }
    } else {
      var i, j :| 0 <= i < j < n && addrs[i] == addrs[j];
      var rule := DomainRule(n, RoundRobin, 0, 0);
      SlotOfWhole(rule, n, i);
      SlotOfWhole(rule, n, j);
      assert addrs[Slot(rule, i, n)] == addrs[Slot(rule, j, n)];
    }
  }

  lemma FirstSlot(rule: DomainRule, len: nat)
    requires rule.count >= 1 && rule.startIdx < len
    ensures Slot(rule, 0, len) == rule.startIdx
  {
    QuotientUnique(rule.startIdx, len, 0, rule.startIdx);
  }

  predicate Apart(x: seq<Address>, y: seq<Address>) {
    forall i, j | 0 <= i < |x| && 0 <= j < |y| :: x[i] != y[j]
  }

  lemma ConcatNoRepeats(x: seq<Address>, y: seq<Address>)
    ensures NoRepeats(x + y) <==> NoRepeats(x) && NoRepeats(y) && Apart(x, y)
  {
    var z := x + y;
    assert forall i | 0 <= i < |x| :: z[i] == x[i];
    assert forall j | 0 <= j < |y| :: z[|x| + j] == y[j];
    if NoRepeats(z) {
      forall i, j | 0 <= i < j < |y| ensures y[i] != y[j] { assert z[|x| + i] != z[|x| + j]; }
      forall i, j | 0 <= i < |x| && 0 <= j < |y| ensures x[i] != y[j] { assert z[i] != z[|x| + j]; }
    }
    if NoRepeats(x) && NoRepeats(y) && Apart(x, y) {
      forall i, j | 0 <= i < j < |z| ensures z[i] != z[j] {
        if j >= |x| { assert z[j] == y[j - |x|]; }
        if i >= |x| { assert z[i] == y[i - |x|]; }
      }
    }
  }

  /** No two different ones of the first n entries, both enabled, share an address. */
  predicate NoneShared(prefixes: seq<PrefixInfo>, all: AllAddrs, n: nat)
    requires n <= |prefixes|
  {
    forall i, j | 0 <= i < j < n && prefixes[i].enabled && prefixes[j].enabled ::
      Apart(AddrsOf(all, prefixes[i].prefix), AddrsOf(all, prefixes[j].prefix))
  }

  predicate EachOnce(prefixes: seq<PrefixInfo>, all: AllAddrs, n: nat)
    requires n <= |prefixes|
  {
    forall i | 0 <= i < n && prefixes[i].enabled :: NoRepeats(AddrsOf(all, prefixes[i].prefix))
  }

  lemma OnceWithLast(prefixes: seq<PrefixInfo>, all: AllAddrs, n: nat, mine: seq<Address>)
    requires 0 < n <= |prefixes| && prefixes[n - 1].enabled && mine == AddrsOf(all, prefixes[n - 1].prefix)
    ensures EachOnce(prefixes, all, n) <==> EachOnce(prefixes, all, n - 1) && NoRepeats(mine)
  {
  }

  lemma LastIsOff(prefixes: seq<PrefixInfo>, all: AllAddrs, n: nat)
    requires 0 < n <= |prefixes| && !prefixes[n - 1].enabled
    ensures EachOnce(prefixes, all, n) <==> EachOnce(prefixes, all, n - 1)
    ensures NoneShared(prefixes, all, n) <==> NoneShared(prefixes, all, n - 1)
  {
  }

  lemma ApartFromOne(prefixes: seq<PrefixInfo>, all: AllAddrs, n: nat, i: nat, mine: seq<Address>)
    requires i < n <= |prefixes| && prefixes[i].enabled && Apart(ActiveAddrs(prefixes, all, n), mine)
    ensures Apart(AddrsOf(all, prefixes[i].prefix), mine)
  {
    var theirs, active := AddrsOf(all, prefixes[i].prefix), ActiveAddrs(prefixes, all, n);
    forall k, l | 0 <= k < |theirs| && 0 <= l < |mine| ensures theirs[k] != mine[l] {
      ActiveAddrsMembers(prefixes, all, n, theirs[k]);
      assert IsActive(prefixes, all, n, theirs[k]);
      var m :| 0 <= m < |active| && active[m] == theirs[k];
    }
  }

  lemma SharedWithLast(prefixes: seq<PrefixInfo>, all: AllAddrs, n: nat, mine: seq<Address>)
    requires 0 < n <= |prefixes| && prefixes[n - 1].enabled && mine == AddrsOf(all, prefixes[n - 1].prefix)
    ensures NoneShared(prefixes, all, n)
      <==> NoneShared(prefixes, all, n - 1) && Apart(ActiveAddrs(prefixes, all, n - 1), mine)
  {
    var active := ActiveAddrs(prefixes, all, n - 1);
    if NoneShared(prefixes, all, n) {
      forall k, l | 0 <= k < |active| && 0 <= l < |mine| ensures active[k] != mine[l] {
        ActiveAddrsMembers(prefixes, all, n - 1, active[k]);
        var i :| 0 <= i < n - 1 && prefixes[i].enabled && active[k] in AddrsOf(all, prefixes[i].prefix);
        assert Apart(AddrsOf(all, prefixes[i].prefix), mine);
      }
    }
    if NoneShared(prefixes, all, n - 1) && Apart(active, mine) {
      forall i | 0 <= i < n - 1 && prefixes[i].enabled ensures Apart(AddrsOf(all, prefixes[i].prefix), mine) {
        ApartFromOne(prefixes, all, n - 1, i, mine);
      }
    }
  }

  /** The flat list names no address twice if and only if no enabled prefix does and no two enabled
      entries share one. */
  lemma {:induction false} NoRepeatsIff(prefixes: seq<PrefixInfo>, all: AllAddrs, n: nat)
    requires n <= |prefixes|
    ensures NoRepeats(ActiveAddrs(prefixes, all, n)) <==> EachOnce(prefixes, all, n) && NoneShared(prefixes, all, n)
  {
    if n > 0 {
      NoRepeatsIff(prefixes, all, n - 1);
      if prefixes[n - 1].enabled {
        var mine := AddrsOf(all, prefixes[n - 1].prefix);
        ConcatNoRepeats(ActiveAddrs(prefixes, all, n - 1), mine);
        SharedWithLast(prefixes, all, n, mine);
        OnceWithLast(prefixes, all, n, mine);
      } else {
        LastIsOff(prefixes, all, n);
      }
    }
  }

  /** A prefix that is configured twice and has an address makes a list that names it twice, with
      any other prefixes around it. */
  lemma {:induction false} TwiceConfiguredRepeats(make: (string, int) -> Option<Address>,
                                                  single: string -> Option<Address>,
                                                specs: seq<(string, int)>, countPer: int,
                                                prefixes: seq<PrefixInfo>, i: nat, j: nat)
    requires |prefixes| == |specs| && forall k | 0 <= k < |specs| :: prefixes[k] == InfoOf(specs[k], countPer)
    requires i < j < |specs| && specs[i].0 == specs[j].0
    requires AddrsOf(SpecMap(make, single, specs, countPer, |specs|), specs[i].0) != []
    ensures !NoRepeats(ActiveAddrs(prefixes, SpecMap(make, single, specs, countPer, |specs|), |prefixes|))
  {
    var all := SpecMap(make, single, specs, countPer, |specs|);
    NoRepeatsIff(prefixes, all, |prefixes|);
    var mine := AddrsOf(all, specs[i].0);
    assert !Apart(mine, mine) by { assert mine[0] == mine[0]; }
    assert prefixes[i].enabled && prefixes[j].enabled && prefixes[i].prefix == prefixes[j].prefix;
  }

  /** The smallest such pool: one prefix given twice, one address each. */
  lemma RepeatedList(make: (string, int) -> Option<Address>, single: string -> Option<Address>, prefix: string)
    requires make(prefix, 1).Some?
    ensures var specs := [(prefix, 64), (prefix, 64)];
      var prefixes := [InfoOf(specs[0], 1), InfoOf(specs[1], 1)];
      !NoRepeats(ActiveAddrs(prefixes, SpecMap(make, single, specs, 1, 2), 2))
  {
    var specs := [(prefix, 64), (prefix, 64)];
    var prefixes := [InfoOf(specs[0], 1), InfoOf(specs[1], 1)];
    assert Made(make, prefix, 1, 1) == [];
    assert Made(make, prefix, 1, 2) == [make(prefix, 1).value];
    TwiceConfiguredRepeats(make, single, specs, 1, prefixes, 0, 1);
  }

  /** Different numbers make different addresses. */
  ghost predicate OneToOne(make: (string, int) -> Option<Address>, prefix: string) {
    forall i, j | i != j && make(prefix, i).Some? :: make(prefix, i) != make(prefix, j)
  }

  lemma {:induction false} MadeBy(make: (string, int) -> Option<Address>, prefix: string, from: int, n: nat, a: Address)
    returns (i: int)
    requires a in Made(make, prefix, from, from + n)
    ensures from <= i < from + n && make(prefix, i) == Some(a)
  {
    i := from + n - 1;
    if make(prefix, i) != Some(a) { i := MadeBy(make, prefix, from, n - 1, a); }
  }

  lemma NewIsApart(make: (string, int) -> Option<Address>, prefix: string, from: int, n: nat, a: Address)
    requires OneToOne(make, prefix) && make(prefix, from + n) == Some(a)
    ensures Apart(Made(make, prefix, from, from + n), [a])
  {
    if a in Made(make, prefix, from, from + n) {
      var i := MadeBy(make, prefix, from, n, a);
    }
  }

  lemma OneMoreNoRepeats(x: seq<Address>, a: Address)
    requires NoRepeats(x) && Apart(x, [a])
    ensures NoRepeats(x + [a])
  {
    ConcatNoRepeats(x, [a]);
  }

  lemma MadeStep(make: (string, int) -> Option<Address>, prefix: string, from: int, n: nat)
    requires 0 < n
    ensures var rest, last := Made(make, prefix, from, from + (n - 1)), make(prefix, from + (n - 1));
      Made(make, prefix, from, from + n) == if last.Some? then rest + [last.value] else rest
  {
    assert from + n - 1 == from + (n - 1);
  }

  /** Numbering names no address twice, when it is one-to-one. */
  lemma {:induction false} MadeNoRepeats(make: (string, int) -> Option<Address>, prefix: string, from: int, n: nat)
    requires OneToOne(make, prefix)
    ensures NoRepeats(Made(make, prefix, from, from + n))
  {
    if n > 0 {
      MadeNoRepeats(make, prefix, from, n - 1);
      MadeStep(make, prefix, from, n);
      var last := make(prefix, from + (n - 1));
      if last.Some? {
        NewIsApart(make, prefix, from, n - 1, last.value);
        OneMoreNoRepeats(Made(make, prefix, from, from + (n - 1)), last.value);
      }
    }
  }

  // ---------------------------------------------------------------- growing

  /** Go's division: towards zero. */
  function GoDiv(a: int, b: int): int
    requires b > 0
  {
    if a >= 0 then a / b else -((-a) / b)
  }

  function Expandable(prefixes: seq<PrefixInfo>, n: nat): nat
    requires n <= |prefixes|
  {
    if n == 0 then 0 else Expandable(prefixes, n - 1) + if prefixes[n - 1].bits < 128 then 1 else 0
  }

  /** What Expand gives each prefix, and how many of the first ones get one more. */
  datatype Quota = Quota(per: int, rem: int)

  function GoQuota(count: int, expandable: int): Quota
    requires expandable > 0
  {
    Quota(GoDiv(count, expandable), count - GoDiv(count, expandable) * expandable)
  }

  function ShareAt(prefixes: seq<PrefixInfo>, q: Quota, i: nat): int
    requires i < |prefixes|
  {
    if prefixes[i].bits == 128 then 0 else if Expandable(prefixes, i) < q.rem then q.per + 1 else q.per
  }

  function Extended(all: AllAddrs, prefix: string, more: seq<Address>): AllAddrs {
    if more == [] then all else all[prefix := AddrsOf(all, prefix) + more]
  }

  function GrownMap(make: (string, int) -> Option<Address>, prefixes: seq<PrefixInfo>, all: AllAddrs,
                    q: Quota, n: nat): AllAddrs
    requires n <= |prefixes|
  {
    if n == 0 then all else
      var info := prefixes[n - 1];
      var more := Made(make, info.prefix, info.count + 1, info.count + 1 + ShareAt(prefixes, q, n - 1));
      Extended(GrownMap(make, prefixes, all, q, n - 1), info.prefix, more)
  }

  function Total(prefixes: seq<PrefixInfo>, n: nat): int
    requires n <= |prefixes|
  {
    if n == 0 then 0 else Total(prefixes, n - 1) + prefixes[n - 1].count
  }

  predicate GrownPrefixes(before: seq<PrefixInfo>, after: seq<PrefixInfo>, q: Quota) {
    && |after| == |before|
    && forall i {:trigger after[i]} | 0 <= i < |before| ::
         after[i] == before[i].(count := before[i].count + ShareAt(before, q, i))
  }

  /** The first n shares together. */
  function ShareSum(per: int, rem: int, n: nat): int {
    if n == 0 then 0 else ShareSum(per, rem, n - 1) + if n - 1 < rem then per + 1 else per
  }

  lemma {:induction false} ShareSumIs(per: int, rem: int, n: nat)
    ensures ShareSum(per, rem, n) == per * n + if n < rem then n else if rem > 0 then rem else 0
  {
    if n > 0 {
      ShareSumIs(per, rem, n - 1);
      assert per * n == per * (n - 1) + per;
    }
  }

  lemma {:induction false} SharesSum(before: seq<PrefixInfo>, after: seq<PrefixInfo>, q: Quota, n: nat)
    requires n <= |before| && GrownPrefixes(before, after, q) && forall i | 0 <= i < |before| :: before[i].bits <= 128
    ensures Total(after, n) == Total(before, n) + ShareSum(q.per, q.rem, Expandable(before, n))
  {
    if n > 0 {
      SharesSum(before, after, q, n - 1);
      assert after[n - 1].count == before[n - 1].count + ShareAt(before, q, n - 1);
    }
  }

  lemma GoRemainder(a: int, b: int)
    requires b > 0
    ensures -b < a - GoDiv(a, b) * b < b && (a >= 0 ==> a >= GoDiv(a, b) * b) && (a <= 0 ==> a <= GoDiv(a, b) * b)
  {
    if a < 0 {
      assert -((-a) / b) * b == -(((-a) / b) * b);
    }
  }

  /** Expand hands out exactly the number asked for; of the negative ones, which no caller passes,
      that is so exactly for those that divide evenly among the prefixes that can grow. */
  lemma ExpandGivesAll(before: seq<PrefixInfo>, after: seq<PrefixInfo>, count: int)
    requires Expandable(before, |before|) > 0 && forall i | 0 <= i < |before| :: before[i].bits <= 128
    requires GrownPrefixes(before, after, GoQuota(count, Expandable(before, |before|)))
    ensures var e := Expandable(before, |before|);
      Total(after, |after|) == Total(before, |before|) + count <==> count >= 0 || count == GoDiv(count, e) * e
  {
    var e := Expandable(before, |before|);
    var q := GoQuota(count, e);
    SharesSum(before, after, q, |before|);
    ShareSumIs(q.per, q.rem, e);
    GoRemainder(count, e);
  }

  lemma ExtendedKeeps(all: AllAddrs, prefix: string, more: seq<Address>, other: string)
    ensures AddrsOf(all, other) <= AddrsOf(Extended(all, prefix, more), other)
  {
  }

  /** Growing takes no address away. */
  lemma {:induction false} GrowthKeeps(make: (string, int) -> Option<Address>, prefixes: seq<PrefixInfo>, all: AllAddrs,
                                       q: Quota, n: nat, prefix: string)
    requires n <= |prefixes|
    ensures AddrsOf(all, prefix) <= AddrsOf(GrownMap(make, prefixes, all, q, n), prefix)
  {
    if n > 0 {
      GrowthKeeps(make, prefixes, all, q, n - 1, prefix);
      var info := prefixes[n - 1];
      var more := Made(make, info.prefix, info.count + 1, info.count + 1 + ShareAt(prefixes, q, n - 1));
      ExtendedKeeps(GrownMap(make, prefixes, all, q, n - 1), info.prefix, more, prefix);
    }
  }

  lemma {:induction false} ExpandableGrows(prefixes: seq<PrefixInfo>, i: nat, j: nat)
    requires i <= j <= |prefixes|
    ensures Expandable(prefixes, i) <= Expandable(prefixes, j)
  {
    if i < j { ExpandableGrows(prefixes, i, j - 1); }
  }

  lemma QuotaIsNat(count: nat, expandable: int)
    requires expandable > 0
    ensures var q := GoQuota(count, expandable); 0 <= q.per && 0 <= q.rem < expandable
  {
    GoRemainder(count, expandable);
  }

  /** The shares of a request differ by at most one, the first prefixes get the larger ones, and
      single addresses get none. */
  lemma SharesAreEven(prefixes: seq<PrefixInfo>, count: nat, q: Quota, i: nat, j: nat)
    requires i < j < |prefixes| && prefixes[i].bits < 128 && Expandable(prefixes, |prefixes|) > 0
    requires q == GoQuota(count, Expandable(prefixes, |prefixes|))
    ensures prefixes[j].bits == 128 ==> ShareAt(prefixes, q, j) == 0
    ensures prefixes[j].bits < 128 ==>
      0 <= ShareAt(prefixes, q, j) <= ShareAt(prefixes, q, i) <= ShareAt(prefixes, q, j) + 1
  {
    QuotaIsNat(count, Expandable(prefixes, |prefixes|));
    ExpandableGrows(prefixes, i, j);
  }

  lemma {:induction false} MadeConcat(make: (string, int) -> Option<Address>, prefix: string, from: int, n: nat, m: nat)
    ensures Made(make, prefix, from, from + n) + Made(make, prefix, from + n, from + n + m)
      == Made(make, prefix, from, from + n + m)
  {
    if m > 0 { MadeConcat(make, prefix, from, n, m - 1); }
  }

  lemma ExtendedAt(all: AllAddrs, prefix: string, more: seq<Address>, other: string)
    ensures AddrsOf(Extended(all, prefix, more), other)
      == if other == prefix then AddrsOf(all, other) + more else AddrsOf(all, other)
  {
    assert more == [] ==> AddrsOf(all, other) + more == AddrsOf(all, other);
  }

  lemma GrownStep(make: (string, int) -> Option<Address>, prefixes: seq<PrefixInfo>, all: AllAddrs, q: Quota,
                  n: nat, prefix: string)
    requires 0 < n <= |prefixes|
    ensures var before, info := AddrsOf(GrownMap(make, prefixes, all, q, n - 1), prefix), prefixes[n - 1];
      AddrsOf(GrownMap(make, prefixes, all, q, n), prefix) ==
        if info.prefix == prefix
        then before + Made(make, prefix, info.count + 1, info.count + 1 + ShareAt(prefixes, q, n - 1)) else before
  {
    var info := prefixes[n - 1];
    var more := Made(make, info.prefix, info.count + 1, info.count + 1 + ShareAt(prefixes, q, n - 1));
    ExtendedAt(GrownMap(make, prefixes, all, q, n - 1), info.prefix, more, prefix);
  }

  lemma {:induction false} OnlyOwnEntryGrows(make: (string, int) -> Option<Address>, prefixes: seq<PrefixInfo>,
                                             all: AllAddrs, q: Quota, n: nat, i: nat)
    requires n <= |prefixes| && i < |prefixes|
    requires forall j | 0 <= j < |prefixes| && j != i :: prefixes[j].prefix != prefixes[i].prefix
    ensures var info, own := prefixes[i], AddrsOf(all, prefixes[i].prefix);
      AddrsOf(GrownMap(make, prefixes, all, q, n), info.prefix) ==
        if i < n then own + Made(make, info.prefix, info.count + 1, info.count + 1 + ShareAt(prefixes, q, i)) else own
  {
    if n > 0 {
      OnlyOwnEntryGrows(make, prefixes, all, q, n - 1, i);
      GrownStep(make, prefixes, all, q, n, prefixes[i].prefix);
    }
  }

  /** Growing goes on with the numbering: a prefix listed once that holds the addresses numbered 1
      to its count does so afterwards. */
  lemma GrowthGoesOn(make: (string, int) -> Option<Address>, before: seq<PrefixInfo>, after: seq<PrefixInfo>,
                     all: AllAddrs, q: Quota, i: nat)
    requires i < |before| && GrownPrefixes(before, after, q)
    requires forall j | 0 <= j < |before| && j != i :: before[j].prefix != before[i].prefix
    requires 0 <= before[i].count && 0 <= ShareAt(before, q, i)
    requires AddrsOf(all, before[i].prefix) == Made(make, before[i].prefix, 1, before[i].count + 1)
    ensures AddrsOf(GrownMap(make, before, all, q, |before|), before[i].prefix)
      == Made(make, before[i].prefix, 1, after[i].count + 1)
  {
    OnlyOwnEntryGrows(make, before, all, q, |before|, i);
    MadeConcat(make, before[i].prefix, 1, before[i].count, ShareAt(before, q, i));
    assert after[i].count == before[i].count + ShareAt(before, q, i);
  }

  lemma GrowthKeepsActive(make: (string, int) -> Option<Address>, before: seq<PrefixInfo>, after: seq<PrefixInfo>,
                          all: AllAddrs, q: Quota, a: Address)
    requires GrownPrefixes(before, after, q) && IsActive(before, all, |before|, a)
    ensures IsActive(after, GrownMap(make, before, all, q, |before|), |after|, a)
  {
    var i :| 0 <= i < |before| && before[i].enabled && a in AddrsOf(all, before[i].prefix);
    GrowthKeeps(make, before, all, q, |before|, before[i].prefix);
    assert after[i].enabled;
  }

  /** The prefixes after the first n got their shares. */
  function GrownTo(prefixes: seq<PrefixInfo>, q: Quota, n: nat): (r: seq<PrefixInfo>)
    requires n <= |prefixes|
    ensures |r| == |prefixes|
  {
    if n == 0 then prefixes else
      var infos := GrownTo(prefixes, q, n - 1);
      infos[n - 1 := infos[n - 1].(count := infos[n - 1].count + ShareAt(prefixes, q, n - 1))]
  }

  lemma {:induction false} GrownToAt(prefixes: seq<PrefixInfo>, q: Quota, n: nat, i: nat)
    requires n <= |prefixes| && i < |prefixes|
    ensures GrownTo(prefixes, q, n)[i] ==
      if i < n then prefixes[i].(count := prefixes[i].count + ShareAt(prefixes, q, i)) else prefixes[i]
  {
    if n > 0 { GrownToAt(prefixes, q, n - 1, i); }
  }

  lemma GrownToAll(prefixes: seq<PrefixInfo>, q: Quota)
    ensures GrownPrefixes(prefixes, GrownTo(prefixes, q, |prefixes|), q)
  {
    forall i | 0 <= i < |prefixes|
      ensures GrownTo(prefixes, q, |prefixes|)[i] == prefixes[i].(count := prefixes[i].count + ShareAt(prefixes, q, i))
    {
      GrownToAt(prefixes, q, |prefixes|, i);
    }
  }

  /** One round of the second loop of Expand. */
  method GrowOne(make: (string, int) -> Option<Address>, prefixes: seq<PrefixInfo>, i: nat, q: Quota,
                 ei0: int, all0: AllAddrs, ghost start: AllAddrs)
    returns (info: PrefixInfo, ei: int, all: AllAddrs)
    requires i < |prefixes| && prefixes[i].bits <= 128 && ei0 == Expandable(prefixes, i)
    requires all0 == GrownMap(make, prefixes, start, q, i)
    ensures info == prefixes[i].(count := prefixes[i].count + ShareAt(prefixes, q, i))
    ensures ei == Expandable(prefixes, i + 1) && all == GrownMap(make, prefixes, start, q, i + 1)
  {
    info, ei, all := prefixes[i], ei0, all0;
    var n := 0;
    if info.bits != 128 {
      n := q.per;
      if ei < q.rem {
        n := n + 1;
      }
      ei := ei + 1;
    }
    var more := MakeAll(make, info.prefix, info.count + 1, info.count + 1 + n);
    all := Extended(all, info.prefix, more);
    info := info.(count := info.count + n);
  }

  /** The second loop of Expand. */
  method Grow(make: (string, int) -> Option<Address>, prefixes: seq<PrefixInfo>, all0: AllAddrs, q: Quota)
    returns (infos: seq<PrefixInfo>, all: AllAddrs)
    requires forall i | 0 <= i < |prefixes| :: prefixes[i].bits <= 128
    ensures GrownPrefixes(prefixes, infos, q) && all == GrownMap(make, prefixes, all0, q, |prefixes|)
  {
    var ei := 0;
    infos, all := prefixes, all0;
    for i := 0 to |prefixes|
      invariant ei == Expandable(prefixes, i) && all == GrownMap(make, prefixes, all0, q, i)
      invariant infos == GrownTo(prefixes, q, i)
    {
      GrownToAt(prefixes, q, i, i);
      var info;
      info, ei, all := GrowOne(make, prefixes, i, q, ei, all, all0);
      infos := infos[i := info];
    }
    GrownToAll(prefixes, q);
  }

  lemma StillActiveAfterGrowth(make: (string, int) -> Option<Address>, before: seq<PrefixInfo>, after: seq<PrefixInfo>,
                               all: AllAddrs, sessions: map<string, Session>, q: Quota)
    requires GrownPrefixes(before, after, q)
    requires AllOn(sessions, ActiveAddrs(before, all, |before|))
    ensures AllOn(sessions, ActiveAddrs(after, GrownMap(make, before, all, q, |before|), |after|))
  {
    var grown := GrownMap(make, before, all, q, |before|);
    forall fp | fp in sessions ensures sessions[fp].exitIP in ActiveAddrs(after, grown, |after|) {
      var a := sessions[fp].exitIP;
      ActiveAddrsMembers(before, all, |before|, a);
      GrowthKeepsActive(make, before, after, all, q, a);
      ActiveAddrsMembers(after, grown, |after|, a);
    }
  }

  // ---------------------------------------------------------------- the pool

  predicate IsEnabled(info: PrefixInfo, parse: (string, int) -> Option<IPGen.Prefix>, q: IPGen.Prefix) {
    info.enabled && parse(info.prefix, info.bits) == Some(q)
  }

  class Pool {
    var prefixes: seq<PrefixInfo>
    var addrs: seq<Address>
    var allAddrs: AllAddrs
    var sessions: map<string, Session>
    var domainRules: map<string, DomainRule>
    const ttl: int
    /** The address with this number in a prefix, if it parses. */
    const make: (string, int) -> Option<Address>
    /** The address written out in full, if it parses. */
    const single: string -> Option<Address>
    /** The first four bytes of SHA-256. */
    const hash: string -> nat

    ghost predicate Valid()
      reads this
    {
      && addrs == ActiveAddrs(prefixes, allAddrs, |prefixes|)
      && AllOn(sessions, addrs)
      && (forall i | 0 <= i < |prefixes| :: prefixes[i].bits <= 128)
    }

    function Rules(): RuleState
      reads this
    {
      RuleState(domainRules, |addrs|)
    }

    constructor (specs: seq<(string, int)>, countPer: int, ttl: int,
                 make: (string, int) -> Option<Address>, single: string -> Option<Address>, hash: string -> nat)
      requires forall i | 0 <= i < |specs| :: specs[i].1 <= 128
      ensures Valid() && this.ttl == ttl && this.make == make && this.single == single && this.hash == hash
      ensures sessions == map[] && domainRules == map[]
      ensures |prefixes| == |specs| && forall i | 0 <= i < |specs| :: prefixes[i] == InfoOf(specs[i], countPer)
      ensures allAddrs == SpecMap(make, single, specs, countPer, |specs|)
    {
      this.ttl, this.make, this.single, this.hash := ttl, make, single, hash;
      sessions, domainRules := map[], map[];
      addrs := [];
      new;
      prefixes, allAddrs := Populate(make, single, specs, countPer);
      RebuildAddrs();
    }

    method RebuildAddrs()
      modifies this`addrs
      ensures addrs == ActiveAddrs(prefixes, allAddrs, |prefixes|)
    {
      var active: seq<Address> := [];
      for n := 0 to |prefixes|
        invariant active == ActiveAddrs(prefixes, allAddrs, n)
      {
        if prefixes[n].enabled {
          active := active + AddrsOf(allAddrs, prefixes[n].prefix);
        }
      }
      addrs := active;
    }

    /** The prefixes fresh addresses are drawn from: the enabled ones whose text parses, in their
        order, each as often as it is listed. `from` says where each comes from. */
    method EnabledPrefixes(parse: (string, int) -> Option<IPGen.Prefix>)
      returns (out: seq<IPGen.Prefix>, ghost from: seq<nat>)
      ensures |from| == |out| && forall m, m' | 0 <= m < m' < |from| :: from[m] < from[m']
      ensures forall m | 0 <= m < |out| :: from[m] < |prefixes| && IsEnabled(prefixes[from[m]], parse, out[m])
      ensures forall i | 0 <= i < |prefixes| && prefixes[i].enabled
                         && parse(prefixes[i].prefix, prefixes[i].bits).Some? :: i in from
    {
      out, from := [], [];
      for n := 0 to |prefixes|
        invariant |from| == |out| && forall m, m' | 0 <= m < m' < |from| :: from[m] < from[m']
        invariant forall m | 0 <= m < |out| :: from[m] < n && IsEnabled(prefixes[from[m]], parse, out[m])
        invariant forall i | 0 <= i < n && prefixes[i].enabled
                             && parse(prefixes[i].prefix, prefixes[i].bits).Some? :: i in from
      {
        if prefixes[n].enabled {
          var px := parse(prefixes[n].prefix, prefixes[n].bits);
          if px.Some? {
            out, from := out + [px.value], from + [n];
          }
        }
      }
    }

    /** Only the first entry of that name is switched. When it goes off, every session on one of
        that prefix's addresses ends, and no other. */
    method SetPrefixEnabled(prefix: string, enabled: bool)
      requires Valid()
      modifies this`prefixes, this`addrs, this`sessions
      ensures Valid()
      ensures prefixes == Switched(old(prefixes), prefix, enabled)
      ensures forall fp :: fp in sessions <==>
        fp in old(sessions) && (enabled || old(sessions)[fp].exitIP !in AddrsOf(allAddrs, prefix))
      ensures forall fp | fp in sessions :: sessions[fp] == old(sessions)[fp]
      ensures Rules() == ApplyRule(old(Rules()), Resize(|addrs|))
    {
      StillActive(prefixes, Switched(prefixes, prefix, enabled), allAddrs, sessions, prefix, enabled);
      SwitchFirst(prefix, enabled);
      if !enabled {
        var disabledIPs := AddrsOf(allAddrs, prefix);
        sessions := EndSessionsOn(sessions, disabledIPs);
      }
      RebuildAddrs();
    }

    /** The first part of SetPrefixEnabled. */
    method SwitchFirst(prefix: string, enabled: bool)
      modifies this`prefixes, this`addrs
      ensures prefixes == Switched(old(prefixes), prefix, enabled)
      ensures addrs == ActiveAddrs(prefixes, allAddrs, |prefixes|)
    {
      var i := FindPrefix(prefix);
      if i < |prefixes| {
        prefixes := prefixes[i := prefixes[i].(enabled := enabled)];
      }
      RebuildAddrs();
    }

    /** The loop of SetPrefixEnabled, up to where it breaks off. */
    method FindPrefix(prefix: string) returns (i: nat)
      ensures i == FirstNamed(prefixes, prefix, 0)
    {
      i := 0;
      while i < |prefixes| && prefixes[i].prefix != prefix
        invariant i <= |prefixes| && FirstNamed(prefixes, prefix, 0) == FirstNamed(prefixes, prefix, i)
      {
        i := i + 1;
      }
    }

    /** Picks by the rule; round robin moves its counter on. `pick` is the random choice. */
    method ResolveDomainRule(domain: string, pick: nat) returns (ip: Address)
      requires domain in domainRules && addrs != [] && CanResolve(domainRules[domain])
      requires domainRules[domain].strategy == Random ==>
        pick < (if domainRules[domain].count > |addrs| then |addrs| else domainRules[domain].count)
      modifies this`domainRules
      ensures ip in addrs
      ensures var rule := old(domainRules)[domain];
        domainRules == old(domainRules)[domain := Advanced(rule)]
      ensures old(domainRules)[domain].strategy == RoundRobin ==>
        ip == addrs[Slot(old(domainRules)[domain], old(domainRules)[domain].counter, |addrs|)]
      ensures old(domainRules)[domain].strategy == Random ==>
        ip == addrs[(old(domainRules)[domain].startIdx + pick) % |addrs|]
      ensures old(domainRules)[domain].strategy == Other ==>
        ip == addrs[old(domainRules)[domain].startIdx % |addrs|]
    {
      var rule := domainRules[domain];
      var count := rule.count;
      if count > |addrs| {
        count := |addrs|;
      }
      var idx;
      match rule.strategy {
        case RoundRobin =>
          var seqNo := rule.counter;
          rule := rule.(counter := rule.counter + 1);
          idx := (rule.startIdx + seqNo % count) % |addrs|;
        case Random =>
          idx := (rule.startIdx + pick) % |addrs|;
        case Other =>
          idx := rule.startIdx % |addrs|;
      }
      domainRules := domainRules[domain := rule];
      return addrs[idx];
    }

    /** Records a hit of a rule: the session moves to the address picked. */
    method RecordHit(fp: string, domain: string, latency: int, ip: Address, now: int)
      requires Valid() && ip in addrs
      modifies this`sessions
      ensures Valid()
      ensures fp in sessions && sessions == old(sessions)[fp := sessions[fp]]
      ensures var s := if fp in old(sessions) then old(sessions)[fp] else NewSession(ip, {ip}, now);
        sessions[fp] == Touched(s.(exitIP := ip, exitIPs := s.exitIPs + {ip}), domain, latency, now)
    {
      var s := if fp in sessions then sessions[fp] else NewSession(ip, {ip}, now);
      s := s.(exitIP := ip, exitIPs := s.exitIPs + {ip});
      TouchedIsSound(s, domain, latency, now);
      sessions := sessions[fp := Touched(s, domain, latency, now)];
    }

    /** Whether Resolve goes by a rule. */
    predicate HasRule(domain: string)
      reads this
    {
      domain != "" && domain in domainRules
    }

    /** The session was used at most ttl ago; without a ttl it never ends. */
    predicate HasSession(fp: string, now: int)
      reads this
    {
      fp in sessions && !(ttl > 0 && now - sessions[fp].lastSeen > ttl)
    }

    method Resolve(fp: string, domain: string, latency: int, now: int, pick: nat) returns (ip: Address)
      requires Valid() && addrs != []
      requires HasRule(domain) ==> CanResolve(domainRules[domain])
      requires HasRule(domain) && domainRules[domain].strategy == Random ==>
        pick < (if domainRules[domain].count > |addrs| then |addrs| else domainRules[domain].count)
      modifies this`sessions, this`domainRules
      ensures Valid() && ip in addrs
      ensures fp in sessions && sessions == old(sessions)[fp := sessions[fp]] && sessions[fp].exitIP == ip
      ensures old(HasRule(domain)) ==>
        var s := if fp in old(sessions) then old(sessions)[fp] else NewSession(ip, {ip}, now);
        sessions[fp] == Touched(s.(exitIP := ip, exitIPs := s.exitIPs + {ip}), domain, latency, now)
      ensures !old(HasRule(domain)) ==>
        sessions[fp] == Touched(if old(HasSession(fp, now)) then old(sessions)[fp] else NewSession(ip, {}, now),
                                domain, latency, now)
      ensures !old(HasRule(domain)) ==>
        && domainRules == old(domainRules)
        && ip == if old(HasSession(fp, now)) then old(sessions)[fp].exitIP else addrs[hash(fp) % |addrs|]
      ensures !old(HasRule(domain)) && old(fp in sessions && (ttl <= 0 || now - sessions[fp].lastSeen <= ttl)) ==>
        var s := old(sessions)[fp];
        ip == s.exitIP && sessions[fp].totalHits == s.totalHits + 1 && sessions[fp].createdAt == s.createdAt
      ensures !old(HasRule(domain)) && !old(fp in sessions && (ttl <= 0 || now - sessions[fp].lastSeen <= ttl)) ==>
        ip == addrs[hash(fp) % |addrs|] && sessions[fp].totalHits == 1 && sessions[fp].createdAt == now
      ensures Rules() == if old(HasRule(domain)) then ApplyRule(old(Rules()), Use(domain)) else old(Rules())
      ensures old(HasRule(domain)) && old(CanPick(Rules(), domain)) ==> ip == addrs[old(NextSlot(Rules(), domain))]
    {
      if domain != "" {
        if domain in domainRules {
          ip := ResolveDomainRule(domain, pick);
          RecordHit(fp, domain, latency, ip, now);
          return ip;
        }
      }
      var s := if HasSession(fp, now) then sessions[fp] else NewSession(addrs[hash(fp) % |addrs|], {}, now);
      TouchedIsSound(s, domain, latency, now);
      sessions := sessions[fp := Touched(s, domain, latency, now)];
      return s.exitIP;
    }

    /** Replaces the domain's rule and no other. Its slots start at the hash, within the list; it
        can be resolved unless its count is unusable, and its first resolve takes its first slot. */
    method AddDomainRule(domain: string, count: int, strategy: Strategy)
      requires Valid() && addrs != []
      modifies this`domainRules
      ensures Valid() && domain in domainRules
      ensures var rule := domainRules[domain];
        && Rules() == ApplyRule(old(Rules()), SetRule(domain, rule))
        && rule.count == count && rule.strategy == strategy && rule.startIdx < |addrs|
        && (count >= 1 ==> CanResolve(rule))
        && (count >= 1 && strategy == RoundRobin ==>
              NextSlot(Rules(), domain) == rule.startIdx == hash(domain) % |addrs|)
    {
      var rule := DomainRule(count, strategy, 0, hash(domain) % |addrs|);
      domainRules := domainRules[domain := rule];
      if count >= 1 { FirstSlot(rule, |addrs|); }
    }

    method RemoveDomainRule(domain: string)
      requires Valid()
      modifies this`domainRules
      ensures Valid() && Rules() == ApplyRule(old(Rules()), DropRule(domain))
    {
      domainRules := domainRules - {domain};
    }

    method RemoveSession(fp: string)
      requires Valid()
      modifies this`sessions
      ensures Valid() && sessions == old(sessions) - {fp}
    {
      sessions := sessions - {fp};
    }

    method ClearSessions()
      requires Valid()
      modifies this`sessions
      ensures Valid() && sessions == map[]
    {
      sessions := map[];
    }

    /** One round of the cleanup loop. */
    method Cleanup(now: int)
      requires Valid() && ttl > 0
      modifies this`sessions
      ensures Valid()
      ensures sessions == map fp | fp in old(sessions) && now - old(sessions)[fp].lastSeen <= ttl :: old(sessions)[fp]
    {
      var most := ttl;
      sessions := EndSessions(sessions, (s: Session) => now - s.lastSeen > most);
    }

    /** More addresses, spread over the prefixes that are not single addresses. */
    method Expand(count: int)
      requires Valid()
      modifies this`prefixes, this`addrs, this`allAddrs
      ensures Valid()
      ensures Expandable(old(prefixes), |old(prefixes)|) == 0 ==> prefixes == old(prefixes) && allAddrs == old(allAddrs)
      ensures Expandable(old(prefixes), |old(prefixes)|) > 0 ==>
        var q := GoQuota(count, Expandable(old(prefixes), |old(prefixes)|));
        && GrownPrefixes(old(prefixes), prefixes, q)
        && allAddrs == GrownMap(make, old(prefixes), old(allAddrs), q, |old(prefixes)|)
      ensures Rules() == ApplyRule(old(Rules()), Resize(|addrs|))
    {
      var expandable := 0;
      for n := 0 to |prefixes|
        invariant expandable == Expandable(prefixes, n)
      {
        if prefixes[n].bits < 128 {
          expandable := expandable + 1;
        }
      }
      if expandable == 0 {
        return;
      }
      var quota := GoQuota(count, expandable);
      prefixes, allAddrs := Grow(make, prefixes, allAddrs, quota);
      RebuildAddrs();
      StillActiveAfterGrowth(make, old(prefixes), prefixes, old(allAddrs), sessions, quota);
    }
  }
}
