/**
 Accounts and sticky sessions of internal/store/store.go over Redis.

 Redis is modelled by what it holds: session hashes with their expiry under the key strings
 the program builds, one sorted set of session ids per account, the account hashes and the
 set of account names. One clock, in whole seconds, serves Redis and the program. Addresses
 are kept as values; their text form is not part of this model.
 */
module Store {
  import opened Runs
  import opened Credential
  import IPGen

  type Address = IPGen.Address
  type Prefix = IPGen.Prefix

  datatype Session = Session(exitIP: Address, prefix: Prefix, ttlMin: int, createdAt: int, lastSeen: int, hits: int)

  /** A session hash and the second from which on it is gone. */
  datatype Slot = Slot(session: Session, expireAt: int)

  type Sessions = map<string, Slot>

  /** A sorted set: ids with their scores. Redis keeps no empty ones. */
  type ZSet = z: map<string, int> | z != map[] witness (var z: map<string, int> := map["" := 0]; assert "" in z; z)
  type Index = map<string, ZSet>

  datatype Account = Account(username: string, passHash: string, enabled: bool, defaultMode: Mode,
                             defaultTTL: int, maxTTL: int, rateLimit: int, createdAt: int)

  datatype StoreError = NotFound | Disabled | BadPass | Exists | Rejected

  datatype StoreResult<+T> = Done(value: T) | Failed(error: StoreError)

  // ---------------------------------------------------------------- keys

  function SessKey(p: string, account: string, sid: string): string { p + "sess:" + account + ":" + sid }

  function IdxKey(p: string, account: string): string { p + "sessidx:" + account }

  predicate ColonFree(name: string) { ':' !in name }

  lemma NotShorter(a: string, s: string, b: string, t: string)
    requires ColonFree(b) && a + ":" + s == b + ":" + t
    ensures |b| <= |a|
  {
    var x := a + ":" + s;
    assert x[|a|] == ':';
    assert forall i | 0 <= i < |b| :: x[i] == (b + ":" + t)[i] == b[i];
  }

  lemma ColonSplits(a: string, s: string, b: string, t: string)
    requires ColonFree(a) && ColonFree(b) && a + ":" + s == b + ":" + t
    ensures a == b && s == t
  {
    NotShorter(a, s, b, t);
    NotShorter(b, t, a, s);
    var x := a + ":" + s;
    assert x[..|a|] == a && x[..|b|] == b;
    assert x[|a| + 1..] == s && x[|b| + 1..] == t;
  }

  /** Distinct pairs of an account and a session id have distinct keys, when the account names
      hold no colon. The ids may be anything. */
  lemma SessKeyInjective(p: string, a: string, s: string, b: string, t: string)
    requires ColonFree(a) && ColonFree(b) && SessKey(p, a, s) == SessKey(p, b, t)
    ensures a == b && s == t
  {
    assert SessKey(p, a, s) == p + "sess:" + (a + ":" + s);
    assert SessKey(p, b, t) == p + "sess:" + (b + ":" + t);
    assert SessKey(p, a, s)[|p + "sess:"|..] == a + ":" + s;
    assert SessKey(p, b, t)[|p + "sess:"|..] == b + ":" + t;
    ColonSplits(a, s, b, t);
  }

  lemma KeyParts(p: string, a: string, s: string, b: string, t: string)
    ensures SessKey(p, a, s) == SessKey(p, b, t) <==> a + ":" + s == b + ":" + t
  {
    assert SessKey(p, a, s) == p + "sess:" + (a + ":" + s);
    assert SessKey(p, b, t) == p + "sess:" + (b + ":" + t);
    assert SessKey(p, a, s)[|p + "sess:"|..] == a + ":" + s;
    assert SessKey(p, b, t)[|p + "sess:"|..] == b + ":" + t;
  }

  lemma OneColon(a: string, s: string, b: string, t: string)
    requires ColonFree(a) && ColonFree(s) && a + ":" + s == b + ":" + t
    ensures a == b && s == t
  {
    var x := a + ":" + s;
    assert x[|b|] == ':' by { assert (b + ":" + t)[|b|] == ':'; }
    assert |b| == |a|;
    assert x[..|a|] == a && x[..|b|] == b;
    assert x[|a| + 1..] == s && x[|b| + 1..] == t;
  }

  /** The key of a pair is its own, among all pairs there could be, if and only if neither the
      account name nor the session id holds a colon. */
  lemma SessKeyIsOwnIff(p: string, a: string, s: string)
    ensures (forall b, t :: SessKey(p, a, s) == SessKey(p, b, t) ==> a == b && s == t) <==> ColonFree(a) && ColonFree(s)
  {
    if ColonFree(a) && ColonFree(s) {
      forall b, t | SessKey(p, a, s) == SessKey(p, b, t) ensures a == b && s == t {
        KeyParts(p, a, s, b, t);
        OneColon(a, s, b, t);
      }
    } else if !ColonFree(a) {
      var i :| 0 <= i < |a| && a[i] == ':';
      assert a + ":" + s == a[..i] + ":" + (a[i + 1..] + ":" + s);
      KeyParts(p, a, s, a[..i], a[i + 1..] + ":" + s);
      assert a[..i] != a;
    } else {
      var i :| 0 <= i < |s| && s[i] == ':';
      assert a + ":" + s == a + ":" + s[..i] + ":" + s[i + 1..];
      KeyParts(p, a, s, a + ":" + s[..i], s[i + 1..]);
      assert s[i + 1..] != s;
    }
  }

  /** Valid account names and session ids hold none. */
  lemma ValidPairsAreColonFree(account: string, sid: string)
    requires ValidAccountName(account) && ValidSID(sid)
    ensures ColonFree(account) && ColonFree(sid)
  {
  }

  lemma IdxKeyInjective(p: string, a: string, b: string)
    requires IdxKey(p, a) == IdxKey(p, b)
    ensures a == b
  {
    assert IdxKey(p, a)[|p + "sessidx:"|..] == a;
    assert IdxKey(p, b)[|p + "sessidx:"|..] == b;
  }

  /** The families of keys do not overlap: a session key is never an index key. */
  lemma FamiliesDisjoint(p: string, a: string, s: string, b: string)
    ensures SessKey(p, a, s) != IdxKey(p, b)
  {
    assert SessKey(p, a, s)[|p| + 4] == ':';
    assert IdxKey(p, b)[|p| + 4] == 'i';
  }

  // ---------------------------------------------------------------- commands

  predicate Live(sess: Sessions, now: int, key: string) {
    key in sess && now < sess[key].expireAt
  }

  function Members(idx: Index, k: string): map<string, int> {
    if k in idx then idx[k] else map[]
  }

  /** Redis drops a sorted set that becomes empty. */
  function SetIndex(idx: Index, k: string, z: map<string, int>): Index {
    if z == map[] then idx - {k} else idx[k := z]
  }

  function ZAdd(idx: Index, k: string, score: int, sid: string): Index {
    var z := Members(idx, k)[sid := score];
    assert sid in z;
    idx[k := z]
  }

  function ZRem(idx: Index, k: string, sid: string): Index {
    SetIndex(idx, k, Members(idx, k) - {sid})
  }

  /** The session hash after the script: one more hit on a live one, else a new one. A lifetime
      that is not positive makes Redis drop the key at once. */
  function StickySessions(sess: Sessions, now: int, key: string, cand: Address, prefix: Prefix,
                          ttl: int, ttlMin: int): Sessions {
    if Live(sess, now, key) then
      var slot := sess[key];
      sess[key := slot.(session := slot.session.(hits := slot.session.hits + 1, lastSeen := now))]
    else if ttl <= 0 then sess - {key}
    else sess[key := Slot(Session(cand, prefix, ttlMin, now, now, 1), now + ttl)]
  }

  function StickyAnswer(sess: Sessions, now: int, key: string, cand: Address): Address {
    if Live(sess, now, key) then sess[key].session.exitIP else cand
  }

  function StickyIndex(sess: Sessions, now: int, key: string, idx: Index, k: string, sid: string): Index {
    if Live(sess, now, key) then idx else ZAdd(idx, k, now, sid)
  }

  /** The ids of an account whose session is live. */
  function LiveMembers(sess: Sessions, now: int, p: string, account: string, z: map<string, int>): map<string, int> {
    map s | s in z && Live(sess, now, SessKey(p, account, s)) :: z[s]
  }

  function KeysOf(p: string, account: string, sids: set<string>): set<string> {
    set s | s in sids :: SessKey(p, account, s)
  }

  // ---------------------------------------------------------------- runs

  datatype Redis = Redis(sess: Sessions, idx: Index, names: set<string>, now: int)

  datatype Op =
    | Sticky(account: string, sid: string, cand: Address, prefix: Prefix, ttl: int, ttlMin: int)
    | Drop(account: string, sid: string)
    | List(account: string)
    | Register(account: string)
    | DropAccount(account: string)
    | Clear
    | Tick(time: int)

  /** The keys of all live sessions the listed accounts have in their indexes. */
  function ListedKeys(p: string, r: Redis, accounts: set<string>): set<string> {
    set a, s | a in accounts && s in LiveMembers(r.sess, r.now, p, a, Members(r.idx, IdxKey(p, a))) :: SessKey(p, a, s)
  }

  function IdxKeys(p: string, accounts: set<string>): set<string> {
    set a | a in accounts :: IdxKey(p, a)
  }

  /** Without the sessions listed for these accounts, and without their indexes. */
  function Wiped(p: string, r: Redis, accounts: set<string>): Redis {
    r.(sess := r.sess - ListedKeys(p, r, accounts), idx := r.idx - IdxKeys(p, accounts))
  }

  function Apply(p: string, r: Redis, op: Op): Redis {
    match op
    case Sticky(a, s, cand, prefix, ttl, ttlMin) =>
      var key := SessKey(p, a, s);
      r.(sess := StickySessions(r.sess, r.now, key, cand, prefix, ttl, ttlMin),
         idx := StickyIndex(r.sess, r.now, key, r.idx, IdxKey(p, a), s))
    case Drop(a, s) =>
      var k := IdxKey(p, a);
      r.(sess := r.sess - {SessKey(p, a, s)}, idx := ZRem(r.idx, k, s))
    case List(a) =>
      var k := IdxKey(p, a);
      r.(idx := SetIndex(r.idx, k, LiveMembers(r.sess, r.now, p, a, Members(r.idx, k))))
    case Register(a) => r.(names := r.names + {a})
    case DropAccount(a) => Wiped(p, r, {a}).(names := r.names - {a})
    case Clear => Wiped(p, r, r.names)
    case Tick(t) => r.(now := t)
  }

  function After(p: string, start: Redis, calls: Calls<Op>): Redis {
    match calls
    case NoCalls => start
    case Then(before, op) => Apply(p, After(p, start, before), op)
  }

  /** The names used are those of accounts that can exist, and the clock does not go back. */
  predicate Sensible(r: Redis, op: Op) {
    match op
    case Clear => true
    case Tick(t) => r.now <= t
    case _ => ColonFree(op.account)
  }

  predicate IsRun(p: string, start: Redis, calls: Calls<Op>) {
    match calls
    case NoCalls => true
    case Then(before, op) => IsRun(p, start, before) && Sensible(After(p, start, before), op)
  }

  // ---------------------------------------------------------------- index coherence

  /** The session is in the index of its account, with the moment of its creation. */
  predicate Indexed(p: string, r: Redis, a: string, s: string) {
    var z := Members(r.idx, IdxKey(p, a));
    SessKey(p, a, s) in r.sess && s in z && z[s] == r.sess[SessKey(p, a, s)].session.createdAt
  }

  /** Every live session is. */
  ghost predicate Coherent(p: string, r: Redis) {
    && (forall a, s | ColonFree(a) && Live(r.sess, r.now, SessKey(p, a, s)) :: Indexed(p, r, a, s))
    && (forall a | a in r.names :: ColonFree(a))
  }

  /** Deleting an account leaves it without live sessions, and those of others untouched. */
  lemma DropAccountIsComplete(p: string, r: Redis, user: string, a: string, s: string)
    requires Coherent(p, r) && ColonFree(user) && ColonFree(a)
    ensures var r', key := Apply(p, r, DropAccount(user)), SessKey(p, a, s);
      && (Live(r'.sess, r'.now, key) <==> a != user && Live(r.sess, r.now, key))
      && (key in r'.sess ==> key in r.sess && r'.sess[key] == r.sess[key])
      && r'.names == r.names - {user}
  {
    var key := SessKey(p, a, s);
    if a == user && Live(r.sess, r.now, key) {
      assert key in ListedKeys(p, r, {user});
    }
    if key in ListedKeys(p, r, {user}) {
      var t :| t in LiveMembers(r.sess, r.now, p, user, Members(r.idx, IdxKey(p, user))) && key == SessKey(p, user, t);
      SessKeyInjective(p, a, s, user, t);
    }
  }

  /** Clearing leaves no registered account with a live session, and touches no other account. */
  lemma ClearIsComplete(p: string, r: Redis, a: string, s: string)
    requires Coherent(p, r) && ColonFree(a)
    ensures var r', key := Apply(p, r, Clear), SessKey(p, a, s);
      && (Live(r'.sess, r'.now, key) <==> a !in r.names && Live(r.sess, r.now, key))
      && (key in r'.sess ==> key in r.sess && r'.sess[key] == r.sess[key])
      && r'.names == r.names
  {
    var key := SessKey(p, a, s);
    if a in r.names && Live(r.sess, r.now, key) {
      assert key in ListedKeys(p, r, r.names);
    }
    if key in ListedKeys(p, r, r.names) {
      var b, t :| b in r.names && t in LiveMembers(r.sess, r.now, p, b, Members(r.idx, IdxKey(p, b)))
        && key == SessKey(p, b, t);
      SessKeyInjective(p, a, s, b, t);
    }
  }

  /** Deleting one session ends that one, and no other. */
  lemma DropIsExact(p: string, r: Redis, b: string, t: string, a: string, s: string)
    requires ColonFree(b) && ColonFree(a)
    ensures var r', key := Apply(p, r, Drop(b, t)), SessKey(p, a, s);
      && (key in r'.sess <==> (a != b || s != t) && key in r.sess)
      && (key in r'.sess ==> r'.sess[key] == r.sess[key]) && r'.names == r.names
      && (s in Members(r'.idx, IdxKey(p, a)) <==> (a != b || s != t) && s in Members(r.idx, IdxKey(p, a)))
  {
    if SessKey(p, b, t) == SessKey(p, a, s) { SessKeyInjective(p, a, s, b, t); }
    if IdxKey(p, b) == IdxKey(p, a) { IdxKeyInjective(p, a, b); }
  }

  /** One session under one step: live afterwards only if it was, or was just made, and then it
      stays in the index. */
  lemma StaysIndexed(p: string, r: Redis, op: Op, a: string, s: string)
    requires Coherent(p, r) && Sensible(r, op) && ColonFree(a)
    requires Live(Apply(p, r, op).sess, Apply(p, r, op).now, SessKey(p, a, s))
    ensures Indexed(p, Apply(p, r, op), a, s)
  {
    var key := SessKey(p, a, s);
    match op
    case Sticky(b, t, _, _, _, _) =>
      if SessKey(p, b, t) == key { SessKeyInjective(p, a, s, b, t); }
      if IdxKey(p, b) == IdxKey(p, a) { IdxKeyInjective(p, a, b); }
    case Drop(b, t) =>
      if IdxKey(p, b) == IdxKey(p, a) { IdxKeyInjective(p, a, b); }
    case List(b) =>
      if IdxKey(p, b) == IdxKey(p, a) { IdxKeyInjective(p, a, b); }
    case Register(_) =>
    case DropAccount(b) =>
      DropAccountIsComplete(p, r, b, a, s);
      if IdxKey(p, b) == IdxKey(p, a) { IdxKeyInjective(p, a, b); }
    case Clear =>
      ClearIsComplete(p, r, a, s);
      if IdxKey(p, a) in IdxKeys(p, r.names) {
        var b :| b in r.names && IdxKey(p, b) == IdxKey(p, a);
        IdxKeyInjective(p, a, b);
      }
    case Tick(_) =>
  }

  lemma StepKeepsCoherent(p: string, r: Redis, op: Op)
    requires Coherent(p, r) && Sensible(r, op)
    ensures Coherent(p, Apply(p, r, op))
  {
    var r' := Apply(p, r, op);
    forall a, s | ColonFree(a) && Live(r'.sess, r'.now, SessKey(p, a, s))
      ensures Indexed(p, r', a, s)
    {
      StaysIndexed(p, r, op, a, s);
    }
  }

  /** In every state of every run, the index holds every live session. */
  lemma {:induction false} RunIsCoherent(p: string, start: Redis, calls: Calls<Op>)
    requires Coherent(p, start) && IsRun(p, start, calls)
    ensures Coherent(p, After(p, start, calls))
  {
    match calls
    case NoCalls =>
    case Then(before, op) =>
      RunIsCoherent(p, start, before);
      StepKeepsCoherent(p, After(p, start, before), op);
  }

  /** Listing leaves exactly the ids of live sessions in the index. */
  lemma ListIsExact(p: string, r: Redis, account: string, s: string)
    requires Coherent(p, r) && ColonFree(account)
    ensures s in Members(Apply(p, r, List(account)).idx, IdxKey(p, account))
      <==> Live(r.sess, r.now, SessKey(p, account, s))
  {
  }

  // ---------------------------------------------------------------- sticky windows

  /** A call that does not end the session of this account and id. */
  predicate Spares(op: Op, account: string, sid: string) {
    match op
    case Drop(a, s) => a != account || s != sid
    case DropAccount(a) => a != account
    case Clear => false
    case _ => true
  }

  predicate AllSpare(calls: Calls<Op>, account: string, sid: string) {
    calls.Then? ==> Spares(calls.op, account, sid) && AllSpare(calls.before, account, sid)
  }

  predicate AsksFor(op: Op, a: string, s: string) { op.Sticky? && op.account == a && op.sid == s }

  function CallsFor(calls: Calls<Op>, account: string, sid: string): nat {
    match calls
    case NoCalls => 0
    case Then(before, op) =>
      CallsFor(before, account, sid) + if AsksFor(op, account, sid) then 1 else 0
  }

  /** What the clock says after these calls. */
  function ClockAfter(start: int, calls: Calls<Op>): int {
    match calls
    case NoCalls => start
    case Then(before, op) => if op.Tick? then op.time else ClockAfter(start, before)
  }

  /** When the session was last asked for; it was made at `born`. */
  function LastCall(born: int, calls: Calls<Op>, account: string, sid: string): int {
    match calls
    case NoCalls => born
    case Then(before, op) =>
      if AsksFor(op, account, sid) then ClockAfter(born, before)
      else LastCall(born, before, account, sid)
  }

  /** What a session looks like after its creation at `born` and n calls in all, the last at `seen`. */
  predicate IsWindow(slot: Slot, cand: Address, prefix: Prefix, ttlMin: int, born: int, ttl: int, seen: int, n: nat) {
    && slot.session.exitIP == cand && slot.session.prefix == prefix && slot.session.ttlMin == ttlMin
    && slot.session.createdAt == born && slot.session.lastSeen == seen && slot.session.hits == n
    && slot.expireAt == born + ttl
  }

  lemma WindowStep(p: string, r: Redis, op: Op, a: string, s: string, cand: Address, prefix: Prefix,
                   ttlMin: int, born: int, ttl: int, seen: int, n: nat)
    requires Coherent(p, r) && Sensible(r, op) && ColonFree(a) && Spares(op, a, s)
    requires var key := SessKey(p, a, s);
      Live(r.sess, r.now, key) && IsWindow(r.sess[key], cand, prefix, ttlMin, born, ttl, seen, n)
    ensures var key := SessKey(p, a, s); var r' := Apply(p, r, op);
      && key in r'.sess
      && IsWindow(r'.sess[key], cand, prefix, ttlMin, born, ttl,
                  if AsksFor(op, a, s) then r.now else seen, n + if AsksFor(op, a, s) then 1 else 0)
  {
    var key := SessKey(p, a, s);
    match op
    case Sticky(b, t, _, _, _, _) =>
      if SessKey(p, b, t) == key { SessKeyInjective(p, a, s, b, t); }
    case Drop(b, t) => DropIsExact(p, r, b, t, a, s);
    case DropAccount(b) => DropAccountIsComplete(p, r, b, a, s);
    case _ =>
  }

  /** What a new session holds, when there is none that lives: the caller's address, the lifetime
      asked for, and one hit; the index gets its id. */
  lemma NewSession(p: string, r: Redis, a: string, s: string, cand: Address, prefix: Prefix, ttl: int, ttlMin: int)
    requires !Live(r.sess, r.now, SessKey(p, a, s)) && 0 < ttl
    ensures var key := SessKey(p, a, s); var r' := Apply(p, r, Op.Sticky(a, s, cand, prefix, ttl, ttlMin));
      && StickyAnswer(r.sess, r.now, key, cand) == cand
      && key in r'.sess && r'.sess[key] == Slot(Session(cand, prefix, ttlMin, r.now, r.now, 1), r.now + ttl)
      && Indexed(p, r', a, s) && forall t :: Live(r'.sess, t, key) <==> t < r.now + ttl
  {
  }

  lemma {:induction false} ClockIs(p: string, start: Redis, calls: Calls<Op>)
    ensures After(p, start, calls).now == ClockAfter(start.now, calls)
  {
    if calls.Then? { ClockIs(p, start, calls.before); }
  }

  /** From its creation to its expiry, as long as nobody deletes it, a session keeps the address
      of the caller that made it and its expiry, whatever else happens in between; every call
      for it gets that address, its hits count those calls, and it was last seen at the last. */
  lemma {:induction false} StickyWindow(p: string, r: Redis, make: Op, calls: Calls<Op>)
    requires Coherent(p, r) && make.Sticky? && ColonFree(make.account) && 0 < make.ttl
    requires !Live(r.sess, r.now, SessKey(p, make.account, make.sid))
    requires var start := Apply(p, r, make);
      && IsRun(p, start, calls) && AllSpare(calls, make.account, make.sid)
      && After(p, start, calls).now < r.now + make.ttl
    ensures var key := SessKey(p, make.account, make.sid);
      var r' := After(p, Apply(p, r, make), calls);
      && Live(r'.sess, r'.now, key)
      && IsWindow(r'.sess[key], make.cand, make.prefix, make.ttlMin, r.now, make.ttl,
                  LastCall(r.now, calls, make.account, make.sid), 1 + CallsFor(calls, make.account, make.sid))
      && forall cand :: StickyAnswer(r'.sess, r'.now, key, cand) == make.cand
  {
    var start := Apply(p, r, make);
    StepKeepsCoherent(p, r, make);
    match calls
    case NoCalls =>
    case Then(before, op) =>
      var m := After(p, start, before);
      assert m.now <= Apply(p, m, op).now;
      StickyWindow(p, r, make, before);
      RunIsCoherent(p, start, before);
      ClockIs(p, start, before);
      WindowStep(p, m, op, make.account, make.sid, make.cand, make.prefix, make.ttlMin, r.now, make.ttl,
                 LastCall(r.now, before, make.account, make.sid), 1 + CallsFor(before, make.account, make.sid));
  }

  /** Of the calls that register a name or delete its account, the last registered it. */
  predicate Registered(names: set<string>, calls: Calls<Op>, a: string) {
    match calls
    case NoCalls => a in names
    case Then(before, op) => op == Register(a) || (op != DropAccount(a) && Registered(names, before, a))
  }

  lemma {:induction false} NamesAreRegistered(p: string, start: Redis, calls: Calls<Op>, a: string)
    ensures a in After(p, start, calls).names <==> Registered(start.names, calls, a)
  {
    if calls.Then? { NamesAreRegistered(p, start, calls.before, a); }
  }

  // ---------------------------------------------------------------- accounts

  /** The limits a stored account obeys. */
  predicate Normal(a: Account) {
    && (a.defaultMode == Credential.Sticky || a.defaultMode == Rotate)
    && 0 < a.defaultTTL <= a.maxTTL <= MAX_TTL_MINUTES
  }

  /** What Go's GetAccount makes of the stored fields. */
  function Loaded(a: Account): (r: Account)
    ensures r.defaultMode == if a.defaultMode == Credential.Sticky then Credential.Sticky else Rotate
    ensures Normal(a) ==> r == a
    ensures r.username == a.username && r.passHash == a.passHash && r.enabled == a.enabled && r.rateLimit == a.rateLimit
    ensures r.createdAt == a.createdAt
    ensures (0 < a.defaultTTL ==> r.defaultTTL == a.defaultTTL) && (0 < a.maxTTL ==> r.maxTTL == a.maxTTL)
    ensures (a.defaultTTL <= 0 ==> r.defaultTTL == 10) && (a.maxTTL <= 0 ==> r.maxTTL == 180)
  {
    a.(defaultMode := if a.defaultMode != Credential.Sticky then Rotate else a.defaultMode,
       defaultTTL := if a.defaultTTL <= 0 then DEFAULT_TTL else a.defaultTTL,
       maxTTL := if a.maxTTL <= 0 then MAX_TTL_MINUTES else a.maxTTL)
  }

  /** What storing an account makes of its mode and lifetimes: the maximum when it lies within
      three hours, or else that; the default when it lies within the maximum, or else that, or ten
      minutes when there is none. */
  predicate IsNormalized(a0: Account, a: Account) {
    && a.username == a0.username && a.enabled == a0.enabled && a.rateLimit == a0.rateLimit
    && a.defaultMode == (if a0.defaultMode == Credential.Sticky then Credential.Sticky else Rotate)
    && a.maxTTL == (if 1 <= a0.maxTTL <= 180 then a0.maxTTL else 180)
    && (1 <= a0.defaultTTL <= a.maxTTL ==> a.defaultTTL == a0.defaultTTL)
    && (a0.defaultTTL > a.maxTTL ==> a.defaultTTL == a.maxTTL)
    && (a0.defaultTTL < 1 ==> a.defaultTTL == if a.maxTTL < 10 then a.maxTTL else 10)
  }

  method NormalizeAccount(a0: Account) returns (a: Account)
    ensures Normal(a) && IsNormalized(a0, a)
    ensures a.passHash == a0.passHash && a.createdAt == a0.createdAt
    ensures Normal(a0) ==> a == a0
  {
    a := a0;
    if a.defaultMode != Credential.Sticky {
      a := a.(defaultMode := Rotate);
    }
    if a.defaultTTL <= 0 {
      a := a.(defaultTTL := DEFAULT_TTL);
    }
    if a.maxTTL <= 0 || a.maxTTL > MAX_TTL_MINUTES {
      a := a.(maxTTL := MAX_TTL_MINUTES);
    }
    if a.defaultTTL > a.maxTTL {
      a := a.(defaultTTL := a.maxTTL);
    }
  }

  datatype Listed = Listed(sid: string, session: Session, ttlRemain: int)

  /** Byte by byte, a proper front part coming first. */
  predicate LexLess(a: string, b: string) {
    b != "" && (a == "" || a[0] < b[0] || (a[0] == b[0] && LexLess(a[1..], b[1..])))
  }

  lemma {:induction false} LexTotal(a: string, b: string)
    ensures a == b || LexLess(a, b) || LexLess(b, a)
  {
    if a != "" && b != "" && a[0] == b[0] {
      LexTotal(a[1..], b[1..]);
      assert a == [a[0]] + a[1..] && b == [b[0]] + b[1..];
    }
  }

  lemma {:induction false} LexTransitive(a: string, b: string, c: string)
    requires LexLess(a, b) && LexLess(b, c)
    ensures LexLess(a, c)
  {
    if a != "" && a[0] == b[0] && b[0] == c[0] { LexTransitive(a[1..], b[1..], c[1..]); }
  }

  /** What ZREVRANGE puts first: the higher score, and of equal ones the later text. */
  predicate Above(z: map<string, int>, s: string, t: string)
    requires s in z && t in z
  {
    z[s] > z[t] || (z[s] == z[t] && LexLess(t, s))
  }

  /** The order of ZREVRANGE. */
  predicate ByFallingScore(z: map<string, int>, order: seq<string>) {
    && (forall i | 0 <= i < |order| :: order[i] in z)
    && (forall i, j | 0 <= i < j < |order| :: order[i] != order[j] && Above(z, order[i], order[j]))
    && (forall s | s in z :: s in order)
  }

  predicate IsTop(z: map<string, int>, rest: set<string>, s: string)
    requires rest <= z.Keys
  {
    s in rest && forall t | t in rest && t != s :: Above(z, s, t)
  }

  lemma TopOfMore(z: map<string, int>, others: set<string>, m: string, s: string)
    requires others <= z.Keys && IsTop(z, others, m) && s in z && s !in others
    ensures IsTop(z, others + {s}, if Above(z, m, s) then m else s)
  {
    LexTotal(m, s);
    if !Above(z, m, s) {
      forall t | t in others ensures Above(z, s, t) {
        if t != m && z[s] == z[m] && z[m] == z[t] { LexTransitive(t, m, s); }
      }
    }
  }

  lemma SomeHighest(z: map<string, int>, rest: set<string>) returns (top: string)
    requires rest != {} && rest <= z.Keys
    ensures IsTop(z, rest, top)
  {
    var s :| s in rest;
    var others := rest - {s};
    assert rest == others + {s};
    if others == {} {
      top := s;
    } else {
      var m := SomeHighest(z, others);
      TopOfMore(z, others, m, s);
      top := if Above(z, m, s) then m else s;
    }
  }

  /** The ids taken so far, and those that are left. */
  predicate HalfSorted(z: map<string, int>, order: seq<string>, rest: set<string>) {
    && rest <= z.Keys
    && (forall i | 0 <= i < |order| :: order[i] in z && order[i] !in rest)
    && (forall s | s in z && s !in rest :: s in order)
    && (forall i, s | 0 <= i < |order| && s in rest :: Above(z, order[i], s))
    && (forall i, j | 0 <= i < j < |order| :: order[i] != order[j] && Above(z, order[i], order[j]))
  }

  lemma TakeTop(z: map<string, int>, order: seq<string>, rest: set<string>, s: string)
    requires HalfSorted(z, order, rest) && IsTop(z, rest, s)
    ensures HalfSorted(z, order + [s], rest - {s})
  {
    var more, left := order + [s], rest - {s};
    forall i, t | 0 <= i < |more| && t in left ensures Above(z, more[i], t) {
      if i < |order| { assert Above(z, order[i], t); }
    }
    forall t | t in z && t !in left ensures t in more {
      assert more[|order|] == s;
    }
  }

  method RevRange(z: map<string, int>) returns (order: seq<string>)
    ensures ByFallingScore(z, order)
  {
    order := [];
    var rest := z.Keys;
    while rest != {}
      invariant HalfSorted(z, order, rest)
      decreases |rest|
    {
      ghost var top := SomeHighest(z, rest);
      assert IsTop(z, rest, top);
      var s :| s in rest && IsTop(z, rest, s);
      TakeTop(z, order, rest, s);
      order, rest := order + [s], rest - {s};
    }
  }

  function GetSticky(sess: Sessions, now: int, p: string, account: string, sid: string): StoreResult<Listed> {
    var key := SessKey(p, account, sid);
    if Live(sess, now, key) then Done(Listed(sid, sess[key].session, sess[key].expireAt - now)) else Failed(NotFound)
  }

  function Getter(sess: Sessions, now: int, p: string, account: string): string -> StoreResult<Listed> {
    sid => GetSticky(sess, now, p, account, sid)
  }

  /** Exactly the ids with a session, each once, in the order of ZREVRANGE. */
  predicate IsListingOf(get: string -> StoreResult<Listed>, z: map<string, int>, out: seq<Listed>) {
    && (forall s | s in z && get(s).Done? :: exists i | 0 <= i < |out| :: out[i].sid == s)
    && (forall i | 0 <= i < |out| :: out[i].sid in z && get(out[i].sid) == Done(out[i]))
    && (forall i, j | 0 <= i < j < |out| :: out[i].sid != out[j].sid && Above(z, out[i].sid, out[j].sid))
  }

  /** Exactly the live sessions of the index, each once, newest first. */
  predicate IsListing(sess: Sessions, now: int, p: string, account: string, z: map<string, int>, out: seq<Listed>) {
    IsListingOf(Getter(sess, now, p, account), z, out)
  }

  /** The rows of the first n ids, those without a session skipped. */
  function Rows(get: string -> StoreResult<Listed>, sids: seq<string>, n: nat): seq<Listed>
    requires n <= |sids|
  {
    if n == 0 then [] else
      var rest := Rows(get, sids, n - 1);
      if get(sids[n - 1]).Done? then rest + [get(sids[n - 1]).value] else rest
  }

  /** The index after the first n ids were looked at. */
  function Purged(get: string -> StoreResult<Listed>, idx: Index, k: string, sids: seq<string>, n: nat): Index
    requires n <= |sids|
  {
    if n == 0 then idx else
      var ix := Purged(get, idx, k, sids, n - 1);
      if get(sids[n - 1]).Done? then ix else ZRem(ix, k, sids[n - 1])
  }

  /** The ids among the first n that have no session. */
  function Gone(get: string -> StoreResult<Listed>, sids: seq<string>, n: nat): set<string>
    requires n <= |sids|
  {
    if n == 0 then {} else
      Gone(get, sids, n - 1) + if get(sids[n - 1]).Done? then {} else {sids[n - 1]}
  }

  lemma {:induction false} PurgedIs(get: string -> StoreResult<Listed>, idx: Index, k: string,
                                    sids: seq<string>, n: nat)
    requires n <= |sids|
    ensures Purged(get, idx, k, sids, n) == SetIndex(idx, k, Members(idx, k) - Gone(get, sids, n))
  {
    var z := Members(idx, k);
    if n == 0 {
      assert z - {} == z;
    } else {
      PurgedIs(get, idx, k, sids, n - 1);
      var gone := Gone(get, sids, n - 1);
      assert (z - gone) - {sids[n - 1]} == z - (gone + {sids[n - 1]});
      assert gone + {} == gone;
    }
  }

  lemma {:induction false} GoneIs(get: string -> StoreResult<Listed>, sids: seq<string>, n: nat, s: string)
    requires n <= |sids|
    ensures s in Gone(get, sids, n) <==> get(s).Failed? && exists i | 0 <= i < n :: sids[i] == s
  {
    if n > 0 { GoneIs(get, sids, n - 1, s); }
  }

  /** Every row comes from one of the ids, in their order, and none with a session is missing. */
  lemma {:induction false} RowsAre(get: string -> StoreResult<Listed>, sids: seq<string>, n: nat)
    returns (from: seq<nat>)
    requires n <= |sids|
    ensures |from| == |Rows(get, sids, n)|
    ensures forall m | 0 <= m < |from| :: from[m] < n && get(sids[from[m]]) == Done(Rows(get, sids, n)[m])
    ensures forall m, m' | 0 <= m < m' < |from| :: from[m] < from[m']
    ensures forall i | 0 <= i < n && get(sids[i]).Done? :: i in from
  {
    from := [];
    if n > 0 {
      from := RowsAre(get, sids, n - 1);
      if get(sids[n - 1]).Done? { from := from + [n - 1]; }
    }
  }

  /** Rows that come from the ids in order, with none left out. */
  lemma ListingFrom(get: string -> StoreResult<Listed>, z: map<string, int>, sids: seq<string>,
                    out: seq<Listed>, from: seq<nat>)
    requires ByFallingScore(z, sids) && (forall s | get(s).Done? :: get(s).value.sid == s)
    requires |from| == |out| && forall m | 0 <= m < |from| :: from[m] < |sids| && get(sids[from[m]]) == Done(out[m])
    requires forall m, m' | 0 <= m < m' < |from| :: from[m] < from[m']
    requires forall i | 0 <= i < |sids| && get(sids[i]).Done? :: i in from
    ensures IsListingOf(get, z, out)
  {
    forall m | 0 <= m < |out| ensures out[m].sid == sids[from[m]] {
      assert get(sids[from[m]]) == Done(out[m]);
    }
    forall s | s in z && get(s).Done? ensures exists m | 0 <= m < |out| :: out[m].sid == s {
      var i :| 0 <= i < |sids| && sids[i] == s;
      var m :| 0 <= m < |from| && from[m] == i;
      assert out[m].sid == s;
    }
    forall m, m' | 0 <= m < m' < |out| ensures out[m].sid != out[m'].sid && Above(z, out[m].sid, out[m'].sid) {
      assert Above(z, sids[from[m]], sids[from[m']]);
    }
  }

  lemma RowsAreListing(get: string -> StoreResult<Listed>, z: map<string, int>, sids: seq<string>)
    requires ByFallingScore(z, sids) && forall s | get(s).Done? :: get(s).value.sid == s
    ensures IsListingOf(get, z, Rows(get, sids, |sids|))
  {
    var from := RowsAre(get, sids, |sids|);
    ListingFrom(get, z, sids, Rows(get, sids, |sids|), from);
  }

  lemma NotGoneIsLive(sess: Sessions, now: int, p: string, account: string, z: map<string, int>, sids: seq<string>)
    requires ByFallingScore(z, sids)
    ensures z - Gone(Getter(sess, now, p, account), sids, |sids|) == LiveMembers(sess, now, p, account, z)
  {
    var get := Getter(sess, now, p, account);
    var gone := Gone(get, sids, |sids|);
    var live := LiveMembers(sess, now, p, account, z);
    forall s ensures s in (z - gone) <==> s in live {
      GoneIs(get, sids, |sids|, s);
    }
  }

  /** What walking the whole index yields, and what it leaves of it. */
  lemma SweepIsExact(sess: Sessions, now: int, p: string, account: string, idx: Index, sids: seq<string>)
    requires ByFallingScore(Members(idx, IdxKey(p, account)), sids)
    ensures var k, get := IdxKey(p, account), Getter(sess, now, p, account);
      && Purged(get, idx, k, sids, |sids|) == SetIndex(idx, k, LiveMembers(sess, now, p, account, Members(idx, k)))
      && IsListing(sess, now, p, account, Members(idx, k), Rows(get, sids, |sids|))
  {
    var k := IdxKey(p, account);
    NotGoneIsLive(sess, now, p, account, Members(idx, k), sids);
    PurgedIs(Getter(sess, now, p, account), idx, k, sids, |sids|);
    RowsAreListing(Getter(sess, now, p, account), Members(idx, k), sids);
  }

  /** What a listing shows: each live session once with its fields and the seconds it has left,
      the newest first. */
  lemma ListingShows(p: string, r: Redis, account: string, out: seq<Listed>, s: string)
    requires Coherent(p, r) && ColonFree(account)
    requires IsListing(r.sess, r.now, p, account, Members(r.idx, IdxKey(p, account)), out)
    ensures Live(r.sess, r.now, SessKey(p, account, s)) <==> exists i :: 0 <= i < |out| && out[i].sid == s
    ensures forall i | 0 <= i < |out| :: var key := SessKey(p, account, out[i].sid);
      key in r.sess && out[i].session == r.sess[key].session && out[i].ttlRemain == r.sess[key].expireAt - r.now > 0
    ensures forall i, j | 0 <= i < j < |out| :: out[i].session.createdAt >= out[j].session.createdAt
  {
    var z, get := Members(r.idx, IdxKey(p, account)), Getter(r.sess, r.now, p, account);
    forall i | 0 <= i < |out|
      ensures Live(r.sess, r.now, SessKey(p, account, out[i].sid)) && z[out[i].sid] == out[i].session.createdAt
    {
      assert get(out[i].sid) == Done(out[i]);
      assert Indexed(p, r, account, out[i].sid);
    }
    if Live(r.sess, r.now, SessKey(p, account, s)) {
      assert Indexed(p, r, account, s);
      assert get(s).Done?;
    }
    forall i, j | 0 <= i < j < |out| ensures out[i].session.createdAt >= out[j].session.createdAt {
      assert Above(z, out[i].sid, out[j].sid);
    }
  }

  // ---------------------------------------------------------------- deleting what was listed

  function Sids(list: seq<Listed>, n: nat): set<string>
    requires n <= |list|
  {
    if n == 0 then {} else Sids(list, n - 1) + {list[n - 1].sid}
  }

  lemma {:induction false} SidsAre(list: seq<Listed>, n: nat, s: string)
    requires n <= |list|
    ensures s in Sids(list, n) <==> exists i | 0 <= i < n :: list[i].sid == s
  {
    if n > 0 { SidsAre(list, n - 1, s); }
  }

  /** Deleting the first n listed sessions one by one. */
  function DropEach(p: string, r: Redis, account: string, list: seq<Listed>, n: nat): Redis
    requires n <= |list|
  {
    if n == 0 then r else Apply(p, DropEach(p, r, account, list, n - 1), Drop(account, list[n - 1].sid))
  }

  lemma RemAgain(idx: Index, k: string, z: map<string, int>, gone: set<string>, sid: string)
    ensures ZRem(SetIndex(idx, k, z - gone), k, sid) == SetIndex(idx, k, z - (gone + {sid}))
  {
    assert (z - gone) - {sid} == z - (gone + {sid});
  }

  lemma {:induction false} DropEachIs(p: string, r: Redis, account: string, list: seq<Listed>, n: nat)
    requires n <= |list|
    ensures var k := IdxKey(p, account);
      DropEach(p, r, account, list, n) == r.(sess := r.sess - KeysOf(p, account, Sids(list, n)),
                                             idx := SetIndex(r.idx, k, Members(r.idx, k) - Sids(list, n)))
  {
    var k := IdxKey(p, account);
    if n == 0 {
      assert Members(r.idx, k) - {} == Members(r.idx, k);
      assert r.sess - KeysOf(p, account, {}) == r.sess;
    } else {
      DropEachIs(p, r, account, list, n - 1);
      var sids, sid := Sids(list, n - 1), list[n - 1].sid;
      RemAgain(r.idx, k, Members(r.idx, k), sids, sid);
      assert (r.sess - KeysOf(p, account, sids)) - {SessKey(p, account, sid)}
        == r.sess - KeysOf(p, account, sids + {sid});
    }
  }

  lemma ListedSids(sess: Sessions, now: int, p: string, account: string, z: map<string, int>, list: seq<Listed>)
    requires IsListing(sess, now, p, account, z, list)
    ensures Sids(list, |list|) == LiveMembers(sess, now, p, account, z).Keys
  {
    forall s ensures s in Sids(list, |list|) <==> s in LiveMembers(sess, now, p, account, z) {
      SidsAre(list, |list|, s);
    }
  }

  lemma WipedIndex(idx: Index, k: string, z: map<string, int>)
    ensures SetIndex(SetIndex(idx, k, z), k, Members(SetIndex(idx, k, z), k) - z.Keys) == idx - {k}
  {
    assert z - z.Keys == map[];
  }

  /** Listing an account and deleting what was listed wipes it. */
  lemma ListThenDropWipes(p: string, r: Redis, account: string, list: seq<Listed>)
    requires IsListing(r.sess, r.now, p, account, Members(r.idx, IdxKey(p, account)), list)
    ensures DropEach(p, Apply(p, r, List(account)), account, list, |list|) == Wiped(p, r, {account})
  {
    var k, z := IdxKey(p, account), Members(r.idx, IdxKey(p, account));
    var live := LiveMembers(r.sess, r.now, p, account, z);
    ListedSids(r.sess, r.now, p, account, z, list);
    DropEachIs(p, Apply(p, r, List(account)), account, list, |list|);
    WipedIndex(r.idx, k, live);
    assert KeysOf(p, account, live.Keys) == ListedKeys(p, r, {account});
    assert IdxKeys(p, {account}) == {k};
  }

  lemma WipeOneMore(p: string, r: Redis, done: set<string>, a: string)
    requires a !in done
    ensures Wiped(p, Wiped(p, r, done), {a}) == Wiped(p, r, done + {a})
  {
    var r1 := Wiped(p, r, done);
    if IdxKey(p, a) in IdxKeys(p, done) {
      var b :| b in done && IdxKey(p, a) == IdxKey(p, b);
      IdxKeyInjective(p, a, b);
    }
    assert Members(r1.idx, IdxKey(p, a)) == Members(r.idx, IdxKey(p, a));
    assert r1.sess - ListedKeys(p, r1, {a}) == r.sess - ListedKeys(p, r, done + {a});
    assert IdxKeys(p, done + {a}) == IdxKeys(p, done) + IdxKeys(p, {a});
    assert r1.idx - IdxKeys(p, {a}) == r.idx - IdxKeys(p, done + {a});
  }

  class Store {
    var sess: Sessions
    var idx: Index
    var names: set<string>
    var accounts: map<string, Account>
    var now: int
    const p: string
    /** bcrypt: does this hash belong to this password. */
    const matches: (string, string) -> bool

    constructor (keyPrefix: string, matches: (string, string) -> bool, now: int)
      ensures sess == map[] && idx == map[] && names == {} && accounts == map[] && this.now == now
      ensures p == (var q := if keyPrefix == "" then "ipv6p:" else keyPrefix;
                    if q[|q| - 1] == ':' then q else q + ":")
      ensures this.matches == matches
    {
      var q := if keyPrefix == "" then "ipv6p:" else keyPrefix;
      p := if q[|q| - 1] == ':' then q else q + ":";
      this.matches := matches;
      sess, idx, names, accounts, this.now := map[], map[], {}, map[], now;
    }

    ghost function R(): Redis
      reads this
    {
      Redis(sess, idx, names, now)
    }

    method GetAccount(user: string) returns (r: StoreResult<Account>)
      ensures r == if user in accounts then Done(Loaded(accounts[user]).(username := user)) else Failed(NotFound)
    {
      if user !in accounts {
        return Failed(NotFound);
      }
      return Done(Loaded(accounts[user]).(username := user));
    }

    /** Succeeds exactly for an enabled account with the right password. */
    method Authenticate(user: string, pass: string) returns (r: StoreResult<Account>)
      ensures r.Done? <==> user in accounts && accounts[user].enabled && matches(accounts[user].passHash, pass)
      ensures r.Done? ==> r.value == Loaded(accounts[user]).(username := user)
      ensures r == Failed(NotFound) <==> user !in accounts
      ensures r == Failed(Disabled) <==> user in accounts && !accounts[user].enabled
      ensures r == Failed(BadPass) <==>
        user in accounts && accounts[user].enabled && !matches(accounts[user].passHash, pass)
    {
      var a := GetAccount(user);
      if a.Failed? {
        return a;
      }
      if !a.value.enabled {
        return Failed(Disabled);
      }
      if !matches(a.value.passHash, pass) {
        return Failed(BadPass);
      }
      return a;
    }

    /** Only valid names are registered, with normal limits; an existing account is kept. */
    method CreateAccount(a0: Account, password: string, hash: string) returns (r: StoreResult<()>)
      modifies this`accounts, this`names
      ensures r.Done? <==> ValidAccountName(a0.username) && password != "" && a0.username !in old(accounts)
      ensures r == Failed(Exists) <==> ValidAccountName(a0.username) && password != "" && a0.username in old(accounts)
      ensures r.Failed? ==> accounts == old(accounts) && names == old(names)
      ensures r.Done? ==>
        && R() == Apply(p, old(R()), Register(a0.username)) && accounts.Keys == old(accounts).Keys + {a0.username}
        && Normal(accounts[a0.username]) && IsNormalized(a0, accounts[a0.username])
        && accounts[a0.username].passHash == hash
        && accounts[a0.username].createdAt == (if a0.createdAt == 0 then now else a0.createdAt)
        && forall u | u in old(accounts) :: accounts[u] == old(accounts)[u]
    {
      if !ValidAccountName(a0.username) || password == "" {
        return Failed(Rejected);
      }
      if a0.username in accounts {
        return Failed(Exists);
      }
      var a := a0.(passHash := hash);
      if a.createdAt == 0 {
        a := a.(createdAt := now);
      }
      a := NormalizeAccount(a);
      accounts := accounts[a.username := a];
      names := names + {a.username};
      return Done(());
    }

    /** The Lua script, run atomically: the first caller's address wins. */
    method GetOrCreateSticky(account: string, sid: string, cand: Address, prefix: Prefix, ttl0: int, ttlMin: int)
      returns (ip: Address)
      modifies this`sess, this`idx
      ensures var ttl := if ttl0 <= 0 then ttlMin * 60 else ttl0;
        R() == Apply(p, old(R()), Op.Sticky(account, sid, cand, prefix, ttl, ttlMin))
      ensures ip == StickyAnswer(old(sess), now, SessKey(p, account, sid), cand)
    {
      var ttl := if ttl0 <= 0 then ttlMin * 60 else ttl0;
      var key, k := SessKey(p, account, sid), IdxKey(p, account);
      if key in sess && now < sess[key].expireAt {
        var slot := sess[key];
        var session := slot.session.(hits := slot.session.hits + 1, lastSeen := now);
        sess := sess[key := slot.(session := session)];
        return slot.session.exitIP;
      }
      sess := sess[key := Slot(Session(cand, prefix, ttlMin, now, now, 1), now + ttl)];
      if ttl <= 0 {
        sess := sess - {key};
      }
      idx := ZAdd(idx, k, now, sid);
      assert ttl <= 0 ==> sess == old(sess) - {key};
      return cand;
    }

    method DeleteSticky(account: string, sid: string)
      modifies this`sess, this`idx
      ensures R() == Apply(p, old(R()), Drop(account, sid))
    {
      sess := sess - {SessKey(p, account, sid)};
      idx := ZRem(idx, IdxKey(p, account), sid);
    }

    /** The live sessions of an account, newest first, each exactly once; ids whose session is
        gone are taken out of the index on the way. */
    method ListStickyByAccount(account: string) returns (out: seq<Listed>)
      modifies this`idx
      ensures R() == Apply(p, old(R()), List(account))
      ensures IsListing(sess, now, p, account, Members(old(idx), IdxKey(p, account)), out)
    {
      var k := IdxKey(p, account);
      var sids := RevRange(Members(idx, k));
      var get, ix := Getter(sess, now, p, account), idx;
      out := [];
      for n := 0 to |sids|
        invariant out == Rows(get, sids, n) && ix == Purged(get, idx, k, sids, n)
      {
        var row := get(sids[n]);
        if row.Done? {
          out := out + [row.value];
        } else {
          ix := ZRem(ix, k, sids[n]);
        }
      }
      SweepIsExact(sess, now, p, account, idx, sids);
      idx := ix;
    }

    /** The loop DeleteAccount and ClearSticky share. */
    method WipeSticky(account: string)
      modifies this`sess, this`idx
      ensures R() == Wiped(p, old(R()), {account})
    {
      var list := ListStickyByAccount(account);
      ghost var listed := R();
      for n := 0 to |list|
        invariant R() == DropEach(p, listed, account, list, n)
      {
        DeleteSticky(account, list[n].sid);
      }
      ListThenDropWipes(p, old(R()), account, list);
    }

    method DeleteAccount(user: string)
      modifies this`sess, this`idx, this`accounts, this`names
      ensures R() == Apply(p, old(R()), DropAccount(user))
      ensures accounts == old(accounts) - {user}
    {
      WipeSticky(user);
      accounts := accounts - {user};
      names := names - {user};
    }

    method ClearSticky()
      modifies this`sess, this`idx
      ensures R() == Apply(p, old(R()), Clear)
    {
      var rest := names;
      ghost var done := {};
      assert sess - {} == sess && idx - {} == idx;
      assert ListedKeys(p, R(), {}) == {} && IdxKeys(p, {}) == {};
      while rest != {}
        invariant done == names - rest && rest <= names
        invariant R() == Wiped(p, old(R()), done)
        decreases |rest|
      {
        var a :| a in rest;
        WipeSticky(a);
        WipeOneMore(p, old(R()), done, a);
        done := done + {a};
        rest := rest - {a};
      }
      assert done == names;
    }
  }
}
