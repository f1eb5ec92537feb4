/**
 Admission of a request: internal/session/resolve.go and Admit of internal/proxy/runtime.go.

 The enabled prefixes, the random bytes and the limiter's clock are parameters of each call.
 The ghost set `draws` remembers every address ever drawn, with the prefixes enabled then.
 */
module Admission {
  import opened Runs
  import opened Text
  import opened Credential
  import opened NameText
  import IPGen
  import S = Store
  import L = Limiter
  import P = Pool

  type Address = IPGen.Address
  type Prefix = IPGen.Prefix

  // ---------------------------------------------------------------- mode and session id

  /** What Admit makes of a parsed name: the account's defaults, then the id from the headers,
      then rotate for a sticky request that still has no id. */
  function Settled(parsed: Parsed, acct: S.Account, extraSID: string): Parsed {
    var p := WithDefaults(parsed, acct.defaultMode, acct.defaultTTL, acct.maxTTL);
    if p.mode == Sticky && p.sid == "" then
      if ValidSID(extraSID) then p.(sid := extraSID) else p.(mode := Rotate)
    else p
  }

  /** The request is sticky exactly when the name does not ask for rotate and there is an id:
      its own, or one from the headers if the name or the account asks for sticky. Then the id
      is valid. The lifetime is that of the name, or else the account's, within its limits. */
  lemma SettledFacts(parsed: Parsed, acct: S.Account, extraSID: string)
    requires parsed.sid == "" || ValidSID(parsed.sid)
    ensures var p := Settled(parsed, acct, extraSID);
      && (p.mode == Sticky <==> (&& parsed.mode != Rotate
                                 && (|| parsed.sid != ""
                                     || ((parsed.mode == Sticky || acct.defaultMode == Sticky) && ValidSID(extraSID)))))
      && (p.mode == Sticky ==> p.sid == if parsed.sid != "" then parsed.sid else extraSID)
      && (p.mode == Sticky <==> p.sid != "") && (p.mode == Sticky <==> ValidSID(p.sid))
      && (p.mode == Rotate || p.mode == Sticky)
      && LifetimeRule(parsed, acct.defaultTTL, acct.maxTTL, p.ttlMinutes)
      && p.account == parsed.account
  {
  }

  /** A printed sticky name is admitted as what it says, whatever the account's default mode and
      whatever the headers hold; its lifetime is cut to the account's maximum. */
  lemma PrintedNameIsHonoured(account: string, sid: string, ttl: int, acct: S.Account, extraSID: string)
    requires ValidAccountName(account) && ValidSID(sid) && 1 <= ttl < 0x8000_0000_0000_0000
    requires NoToken(account + "_") && S.Normal(acct)
    ensures var d := Decode(FormatUsername(account, sid, ttl, Sticky));
      && d.Ok? && d.value.account == account
      && var p := Settled(d.value, acct, extraSID);
         p.mode == Sticky && p.sid == sid && p.ttlMinutes == if ttl <= acct.maxTTL then ttl else acct.maxTTL
  {
    StickyRoundTrip(account, sid, ttl, Sticky);
  }

  /** A name with a session id and no lifetime is admitted for the account's default lifetime. */
  lemma SidGetsDefaultLifetime(account: string, sid: string, acct: S.Account, extraSID: string)
    requires ValidAccountName(account) && NoToken(account + "_")
    requires 4 <= |sid| <= 64 && forall i | 0 <= i < |sid| :: IsAlnum(sid[i])
    requires 1 <= acct.defaultTTL <= acct.maxTTL <= 180
    ensures var d := Decode(account + "_sid_" + sid);
      && d.Ok? && d.value.account == account
      && var p := Settled(d.value, acct, extraSID);
         p.mode == Sticky && p.sid == sid && p.ttlMinutes == acct.defaultTTL
  {
    NoUnderscoreNoToken(sid);
    SidAlone(account, sid);
  }

  // ---------------------------------------------------------------- draws

  datatype Draw = Draw(ip: Address, prefix: Prefix, enabled: seq<Prefix>)

  /** Drawn from inside a prefix that was enabled at the time. */
  predicate Fair(d: Draw) { d.prefix in d.enabled && 0 <= d.prefix.bits <= 128 && IPGen.InPrefix(d.ip, d.prefix) }

  ghost predicate WasDrawn(ip: Address, prefix: Prefix, draws: set<Draw>) {
    exists d :: d in draws && d.ip == ip && d.prefix == prefix
  }

  ghost predicate AllDrawn(sess: S.Sessions, draws: set<Draw>) {
    && (forall d | d in draws :: Fair(d))
    && (forall key | key in sess :: WasDrawn(sess[key].session.exitIP, sess[key].session.prefix, draws))
  }

  /** No operation of the store brings in an address from elsewhere. */
  lemma StepKeepsDrawn(p: string, r: S.Redis, op: S.Op, draws: set<Draw>)
    requires AllDrawn(r.sess, draws)
    requires op.Sticky? ==> WasDrawn(op.cand, op.prefix, draws)
    ensures AllDrawn(S.Apply(p, r, op).sess, draws)
  {
    var sess := S.Apply(p, r, op).sess;
    forall key | key in sess ensures WasDrawn(sess[key].session.exitIP, sess[key].session.prefix, draws)
    {
      if key in r.sess {
        assert WasDrawn(r.sess[key].session.exitIP, r.sess[key].session.prefix, draws);
      }
    }
  }

  /** Every address the calls propose was drawn. */
  ghost predicate Proposed(calls: Calls<S.Op>, draws: set<Draw>) {
    match calls
    case NoCalls => true
    case Then(before, op) => Proposed(before, draws) && (op.Sticky? ==> WasDrawn(op.cand, op.prefix, draws))
  }

  /** In every state of every run of the store, every session holds a drawn address. */
  lemma {:induction false} RunKeepsDrawn(p: string, start: S.Redis, calls: Calls<S.Op>, draws: set<Draw>)
    requires AllDrawn(start.sess, draws) && Proposed(calls, draws)
    ensures AllDrawn(S.After(p, start, calls).sess, draws)
  {
    match calls
    case NoCalls =>
    case Then(before, op) =>
      RunKeepsDrawn(p, start, before, draws);
      StepKeepsDrawn(p, S.After(p, start, before), op, draws);
  }

  lemma MoreDraws(sess: S.Sessions, draws: set<Draw>, d: Draw)
    requires AllDrawn(sess, draws) && Fair(d)
    ensures AllDrawn(sess, draws + {d}) && WasDrawn(d.ip, d.prefix, draws + {d})
  {
    forall key | key in sess ensures WasDrawn(sess[key].session.exitIP, sess[key].session.prefix, draws + {d}) {
      var e :| e in draws && e.ip == sess[key].session.exitIP && e.prefix == sess[key].session.prefix;
      assert e in draws + {d};
    }
    assert d in draws + {d};
  }

  /** Every address handed out was drawn, by this request or an earlier one, from inside a prefix
      enabled when it was drawn. */
  lemma HandedOutWasDrawn(sess: S.Sessions, now: int, key: string, draws: set<Draw>, d: Draw)
    requires AllDrawn(sess, draws) && d in draws
    ensures exists e :: e in draws && Fair(e) && e.ip == S.StickyAnswer(sess, now, key, d.ip)
  {
    if S.Live(sess, now, key) {
      assert WasDrawn(sess[key].session.exitIP, sess[key].session.prefix, draws);
    }
  }

  function StickyOp(p: Parsed, d: Draw): S.Op {
    S.Op.Sticky(p.account, p.sid, d.ip, d.prefix, p.ttlMinutes * 60, p.ttlMinutes)
  }

  function AfterSticky(p: string, r: S.Redis, parsed: Parsed, d: Draw): S.Redis {
    S.Apply(p, r, StickyOp(parsed, d))
  }

  /** A new session holds the address drawn for it and ends after its lifetime in minutes. */
  lemma NewSessionLasts(p: string, r: S.Redis, parsed: Parsed, d: Draw)
    requires !S.Live(r.sess, r.now, S.SessKey(p, parsed.account, parsed.sid)) && 1 <= parsed.ttlMinutes
    ensures var key, sess := S.SessKey(p, parsed.account, parsed.sid), AfterSticky(p, r, parsed, d).sess;
      && key in sess
      && sess[key].session == S.Session(d.ip, d.prefix, parsed.ttlMinutes, r.now, r.now, 1)
      && sess[key].expireAt == r.now + 60 * parsed.ttlMinutes
  {
    S.NewSession(p, r, parsed.account, parsed.sid, d.ip, d.prefix, 60 * parsed.ttlMinutes, parsed.ttlMinutes);
  }

  /** From the request that makes a session until its lifetime, in minutes, is over, every
      sticky request of the account with that id gets the first one's address, unless the
      session is deleted; other requests and operations in between change nothing. */
  lemma SameSessionSameAddress(p: string, r: S.Redis, first: Parsed, d: Draw, calls: Calls<S.Op>,
                               later: Parsed, e: Draw)
    requires S.Coherent(p, r) && ValidAccountName(first.account) && 1 <= first.ttlMinutes
    requires !S.Live(r.sess, r.now, S.SessKey(p, first.account, first.sid))
    requires later.account == first.account && later.sid == first.sid
    requires var made := AfterSticky(p, r, first, d);
      && S.IsRun(p, made, calls) && S.AllSpare(calls, first.account, first.sid)
      && S.After(p, made, calls).now < r.now + first.ttlMinutes * 60
    ensures var now := S.After(p, AfterSticky(p, r, first, d), calls);
      S.StickyAnswer(now.sess, now.now, S.SessKey(p, later.account, later.sid), e.ip) == d.ip
  {
    S.StickyWindow(p, r, StickyOp(first, d), calls);
  }

  /** The address lies in a prefix that is enabled. */
  predicate Covered(ip: Address, enabled: seq<Prefix>) {
    exists q | q in enabled :: 0 <= q.bits <= 128 && IPGen.InPrefix(ip, q)
  }

  /** When the address of a sticky request lies in a prefix enabled now: always for a new session;
      for a live one exactly if the prefix it was drawn from is still enabled, or another enabled
      one happens to hold it. Switching a prefix off does not end the sessions in the store. */
  lemma AnswerIsCoveredIff(sess: S.Sessions, now: int, key: string, draws: set<Draw>, d: Draw)
    requires AllDrawn(sess, draws) && Fair(d)
    ensures var ip := S.StickyAnswer(sess, now, key, d.ip);
      Covered(ip, d.enabled) <==>
        if S.Live(sess, now, key) then
          var own := sess[key].session.prefix;
          own in d.enabled || exists q | q in d.enabled && q != own :: 0 <= q.bits <= 128 && IPGen.InPrefix(ip, q)
        else true
  {
    if S.Live(sess, now, key) {
      assert WasDrawn(sess[key].session.exitIP, sess[key].session.prefix, draws);
    }
  }

  /** A prefix of full length holds one address. */
  lemma FullLengthHoldsOne(a: Address, b: Address)
    ensures IPGen.InPrefix(a, IPGen.Prefix(b, 128)) <==> a == b
  {
    IPGen.ValueIsOwn(a, b);
    assert IPGen.Pow2(0) == 1;
    IPGen.DivByOne(IPGen.Value(a));
    IPGen.DivByOne(IPGen.Value(b));
  }

  /** So a session outlives its prefix: made from one address, it still answers with it when only
      another one is enabled. */
  lemma SessionOutlivesPrefix(a: Address, b: Address, key: string, now: int, expireAt: int)
    requires a != b && now < expireAt
    ensures var p, q := IPGen.Prefix(a, 128), IPGen.Prefix(b, 128);
      var sess := map[key := S.Slot(S.Session(a, p, 10, now, now, 1), expireAt)];
      && AllDrawn(sess, {Draw(a, p, [p])}) && Fair(Draw(b, q, [q]))
      && !Covered(S.StickyAnswer(sess, now, key, b), [q])
  {
    FullLengthHoldsOne(a, a);
    FullLengthHoldsOne(b, b);
    FullLengthHoldsOne(a, b);
    var first := Draw(a, IPGen.Prefix(a, 128), [IPGen.Prefix(a, 128)]);
    assert first in {first} && Fair(first);
  }

  // ---------------------------------------------------------------- draws and the pool

  /** The list of prefixes that the pool gives to a draw, as its method promises it. */
  ghost predicate IsEnabledList(infos: seq<P.PrefixInfo>, parse: (string, int) -> Option<Prefix>,
                                out: seq<Prefix>, from: seq<nat>)
  {
    |from| == |out| && forall m | 0 <= m < |out| :: from[m] < |infos| && P.IsEnabled(infos[from[m]], parse, out[m])
  }

  /** Whatever is drawn comes from an entry of the pool that is enabled. */
  lemma DrawnFromEntry(infos: seq<P.PrefixInfo>, parse: (string, int) -> Option<Prefix>,
                       out: seq<Prefix>, from: seq<nat>, d: Draw) returns (i: nat)
    requires IsEnabledList(infos, parse, out, from) && Fair(d) && d.enabled == out
    ensures i < |infos| && P.IsEnabled(infos[i], parse, d.prefix)
  {
    var m :| 0 <= m < |out| && out[m] == d.prefix;
    i := from[m];
  }

  /** After a name is switched off, a draw comes from an entry of another name, unless the name is
      listed again behind its first entry and enabled there. */
  lemma NoDrawFromSwitchedOff(before: seq<P.PrefixInfo>, name: string, parse: (string, int) -> Option<Prefix>,
                              out: seq<Prefix>, from: seq<nat>, d: Draw) returns (i: nat)
    requires IsEnabledList(P.Switched(before, name, false), parse, out, from) && Fair(d) && d.enabled == out
    ensures i < |before| && before[i].enabled && P.IsEnabled(before[i], parse, d.prefix)
    ensures before[i].prefix == name ==> P.FirstNamed(before, name, 0) < i
  {
    i := DrawnFromEntry(P.Switched(before, name, false), parse, out, from, d);
    P.SwitchedAt(before, name, false, i);
    if before[i].prefix == name {
      var first := P.FirstNamed(before, name, 0);
      assert first <= i;
    }
  }

  /** What ParsePrefix guarantees of every prefix. */
  predicate AllParsed(prefixes: seq<Prefix>) {
    forall q | q in prefixes :: 0 <= q.bits <= 128
  }

  class Resolver {
    const store: S.Store
    ghost var draws: set<Draw>

    constructor (store: S.Store)
      requires store.sess == map[]
      ensures this.store == store && Valid() && draws == {}
    {
      this.store, draws := store, {};
    }

    ghost predicate Valid()
      reads this, store
    {
      AllDrawn(store.sess, draws)
    }

    /** An address for an admitted request: for a sticky one the session's, which is the drawn
        one if the session is new, and for others the drawn one. */
    method Resolve(p: Parsed, enabled: seq<Prefix>, choice: seq<bv8>, rnd: seq<bv8>)
      returns (r: Option<Address>, ghost d: Draw)
      requires Valid() && |choice| == 8 && |rnd| == 16
      modifies this`draws, store`sess, store`idx
      ensures Valid()
      ensures enabled == [] ==> r.None?
      ensures r.None? ==> store.R() == old(store.R()) && draws == old(draws)
      ensures enabled != [] && AllParsed(enabled) ==> r.Some?
      ensures r.Some? ==> Fair(d) && d.enabled == enabled && draws == old(draws) + {d}
      ensures r.Some? && !(p.mode == Sticky && p.sid != "") ==> store.R() == old(store.R()) && r.value == d.ip
      ensures r.Some? && p.mode == Sticky && p.sid != "" ==>
        && store.R() == old(AfterSticky(store.p, store.R(), p, d))
        && r.value == old(S.StickyAnswer(store.sess, store.now, S.SessKey(store.p, p.account, p.sid), d.ip))
    {
      d := *;
      if |enabled| == 0 {
        return None, d;
      }
      var drawn := IPGen.RandomFrom(enabled, choice, rnd);
      if drawn.None? {
        return None, d;
      }
      var (cand, pfx) := drawn.value;
      d := Draw(cand, pfx, enabled);
      MoreDraws(store.sess, draws, d);
      draws := draws + {d};
      if p.mode != Sticky || p.sid == "" {
        return Some(cand), d;
      }
      StepKeepsDrawn(store.p, store.R(), StickyOp(p, d), draws);
      var ip := store.GetOrCreateSticky(p.account, p.sid, cand, pfx, p.ttlMinutes * 60, p.ttlMinutes);
      return Some(ip), d;
    }
  }

  // ---------------------------------------------------------------- admission

  datatype Outcome =
    | Admitted(parsed: Parsed, account: S.Account, ip: Address)
    | BadAuth
    | Limited(parsed: Parsed, account: S.Account)
    | NoAddress(parsed: Parsed, account: S.Account)

  class Runtime {
    const store: S.Store
    const resolver: Resolver
    const limiter: L.Limiter?

    constructor (resolver: Resolver, limiter: L.Limiter?)
      requires resolver.Valid() && (limiter != null ==> limiter.Valid())
      ensures Valid() && this.resolver == resolver && this.limiter == limiter
    {
      this.store, this.resolver, this.limiter := resolver.store, resolver, limiter;
    }

    ghost predicate Valid()
      reads this, resolver, resolver.store, limiter
    {
      store == resolver.store && resolver.Valid() && (limiter != null ==> limiter.Valid())
    }

    /** Does this name and password belong to an enabled account. */
    predicate Authentic(raw: string, pass: string)
      reads store
    {
      && Decode(raw).Ok?
      && var user := Decode(raw).value.account;
         user in store.accounts && store.accounts[user].enabled && store.matches(store.accounts[user].passHash, pass)
    }

    function AccountOf(raw: string): S.Account
      requires Decode(raw).Ok? && Decode(raw).value.account in store.accounts
      reads store
    {
      var user := Decode(raw).value.account;
      S.Loaded(store.accounts[user]).(username := user)
    }

    /** The limiter is asked exactly for authentic requests of accounts that have a rate limit. */
    predicate Metered(raw: string, pass: string)
      reads store
    {
      limiter != null && Authentic(raw, pass) && AccountOf(raw).rateLimit != 0
    }

    /** Neither the credentials nor the rate stand in the way. */
    ghost predicate Admissible(raw: string, pass: string, now: int)
      reads store, limiter
    {
      && Authentic(raw, pass)
      && (Metered(raw, pass) ==> L.MayPass(limiter.C(), limiter.calls, Decode(raw).value.account, now))
    }

    /** Drawn at some time, from inside a prefix enabled then. */
    ghost predicate HandedOut(ip: Address)
      reads resolver
    {
      exists e :: e in resolver.draws && Fair(e) && e.ip == ip
    }

    /** The first part of Admit: who asks, and for what. */
    method Identify(raw: string, pass: string, extraSID: string) returns (r: Option<(Parsed, S.Account)>)
      ensures r.Some? <==> Authentic(raw, pass)
      ensures r.Some? ==> r.value == (Settled(Decode(raw).value, AccountOf(raw), extraSID), AccountOf(raw))
    {
      var decoded := Parse(raw);
      if decoded.Err? {
        return None;
      }
      var parsed := decoded.value;
      var found := store.Authenticate(parsed.account, pass);
      if found.Failed? {
        return None;
      }
      var acct := found.value;
      parsed := ApplyDefaults(parsed, acct.defaultMode, acct.defaultTTL, acct.maxTTL);
      if parsed.mode == Sticky && parsed.sid == "" && extraSID != "" && ValidSID(extraSID) {
        parsed := parsed.(sid := extraSID);
      }
      if parsed.mode == Sticky && parsed.sid == "" {
        parsed := parsed.(mode := Rotate);
      }
      return Some((parsed, acct));
    }

    /** The last part of Admit: an address for a request that may go on. */
    method Deliver(parsed: Parsed, acct: S.Account, enabled: seq<Prefix>, choice: seq<bv8>, rnd: seq<bv8>)
      returns (r: Outcome, ghost d: Draw)
      requires store == resolver.store && resolver.Valid() && |choice| == 8 && |rnd| == 16
      modifies resolver`draws, store`sess, store`idx
      ensures resolver.Valid()
      ensures (r.Admitted? || r.NoAddress?) && r.parsed == parsed && r.account == acct
      ensures r.Admitted? ==> enabled != [] && Fair(d) && d.enabled == enabled && d in resolver.draws && HandedOut(r.ip)
      ensures enabled != [] && AllParsed(enabled) ==> r.Admitted?
      ensures !(r.Admitted? && parsed.mode == Sticky && parsed.sid != "") ==> store.R() == old(store.R())
      ensures r.Admitted? && !(parsed.mode == Sticky && parsed.sid != "") ==> r.ip == d.ip
      ensures r.Admitted? && parsed.mode == Sticky && parsed.sid != "" ==>
        && store.R() == old(AfterSticky(store.p, store.R(), parsed, d))
        && r.ip == old(S.StickyAnswer(store.sess, store.now, S.SessKey(store.p, parsed.account, parsed.sid), d.ip))
    {
      var ip;
      ip, d := resolver.Resolve(parsed, enabled, choice, rnd);
      if ip.None? {
        return NoAddress(parsed, acct), d;
      }
      HandedOutWasDrawn(old(store.sess), store.now, S.SessKey(store.p, parsed.account, parsed.sid), resolver.draws, d);
      return Admitted(parsed, acct, ip.value), d;
    }

    method Admit(raw: string, pass: string, extraSID: string, now: int,
                 enabled: seq<Prefix>, choice: seq<bv8>, rnd: seq<bv8>)
      returns (r: Outcome, ghost d: Draw)
      requires Valid() && |choice| == 8 && |rnd| == 16
      requires limiter != null ==> limiter.H().now <= now
      modifies resolver`draws, store`sess, store`idx, limiter
      ensures Valid()
      ensures r.BadAuth? <==> !old(Authentic(raw, pass))
      ensures !r.BadAuth? ==>
        r.account == old(AccountOf(raw)) && r.parsed == Settled(Decode(raw).value, r.account, extraSID)
      ensures !r.BadAuth? ==>
        LifetimeRule(Decode(raw).value, r.account.defaultTTL, r.account.maxTTL, r.parsed.ttlMinutes)
      ensures old(Metered(raw, pass)) ==>
        limiter.calls == Then(old(limiter.calls), L.AllowAt(Decode(raw).value.account, now))
      ensures limiter != null && !old(Metered(raw, pass)) ==> limiter.calls == old(limiter.calls)
      ensures r.Limited? <==>
        old(Metered(raw, pass)) && !old(L.MayPass(limiter.C(), limiter.calls, Decode(raw).value.account, now))
      ensures r.Admitted? ==> old(Admissible(raw, pass, now)) && enabled != []
      ensures old(Admissible(raw, pass, now)) && enabled != [] && AllParsed(enabled) ==> r.Admitted?
      ensures !(r.Admitted? && r.parsed.mode == Sticky) ==> store.R() == old(store.R())
      ensures r.Admitted? ==> Fair(d) && d.enabled == enabled && d in resolver.draws
      ensures r.Admitted? ==> HandedOut(r.ip)
      ensures r.Admitted? && r.parsed.mode == Rotate ==> r.ip == d.ip
      ensures r.Admitted? && r.parsed.mode == Sticky ==>
        && ValidSID(r.parsed.sid)
        && store.R() == old(AfterSticky(store.p, store.R(), r.parsed, d))
        && r.ip == old(S.StickyAnswer(store.sess, store.now, S.SessKey(store.p, r.parsed.account, r.parsed.sid), d.ip))
    {
      d := *;
      var found := Identify(raw, pass, extraSID);
      if found.None? {
        return BadAuth, d;
      }
      var (parsed, acct) := found.value;
      DecodedIsValid(raw);
      SettledFacts(Decode(raw).value, acct, extraSID);
      if limiter != null && acct.rateLimit != 0 {
        var ok := limiter.Allow(acct.username, now);
        if !ok {
          return Limited(parsed, acct), d;
        }
      }
      r, d := Deliver(parsed, acct, enabled, choice, rnd);
    }
  }
}
