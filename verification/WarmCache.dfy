/**
 The cache of confirmed exit addresses of internal/proxy/ndp.go: entries that stay warm for
 `ttl` after they were marked, at most `maxSize` of them, and the confirmations in flight.

 The functions below say what one locked section does to the cache. The class carries them
 out with the loops and in-place updates of the source; SingleFlight.dfy interleaves them.
 Addresses are identified by their text. Marking reads the clock twice, to
 evict and for the mark.
 */
module WarmCache {
  import opened Text

  type IP = string
  type Chan = nat

  const NDP_WARM_TTL := 60_000
  const NDP_WARM_CACHE_MAX := 4096

  datatype Begun = AlreadyWarm | Wait(done: Chan) | Lead(done: Chan)

  predicate Warm(entries: map<IP, int>, ttl: int, now: int, ip: IP) {
    ip in entries && now - entries[ip] <= ttl
  }

  /** Looking an address up drops its entry when it has expired. */
  function Probed(entries: map<IP, int>, ttl: int, now: int, ip: IP): map<IP, int> {
    if Warm(entries, ttl, now, ip) then entries else entries - {ip}
  }

  function Unexpired(entries: map<IP, int>, ttl: int, now: int): map<IP, int> {
    map k | k in entries && now - entries[k] <= ttl :: entries[k]
  }

  /** What marking keeps of the old entries: all of them while there is room, then only the
      unexpired ones, then none. */
  function Kept(entries: map<IP, int>, ttl: int, maxSize: nat, now: int): map<IP, int> {
    if |entries| < maxSize then entries
    else if |Unexpired(entries, ttl, now)| < maxSize then Unexpired(entries, ttl, now)
    else map[]
  }

  function Marked(entries: map<IP, int>, ttl: int, maxSize: nat, evictAt: int, now: int, ip: IP): map<IP, int> {
    Kept(entries, ttl, maxSize, evictAt)[ip := now]
  }

  /** What marking does to the entries: the marked one is there with the new time, and another
      one stays, with its time, exactly while there is room, or when it has not expired and the
      unexpired ones leave room. */
  predicate MarkEffect(before: map<IP, int>, after: map<IP, int>, ttl: int, maxSize: nat,
                       evictAt: int, now: int, ip: IP)
  {
    && ip in after && after[ip] == now
    && (forall k | k in after && k != ip :: k in before && after[k] == before[k])
    && forall k | k in before && k != ip :: k in after <==>
         || |before| < maxSize
         || (evictAt - before[k] <= ttl && |set u | u in before && evictAt - before[u] <= ttl| < maxSize)
  }

  lemma CardinalityUnion<T>(a: set<T>, x: T)
    ensures |a + {x}| <= |a| + 1
  {
    if x in a { assert a + {x} == a; }
  }

  lemma MarkedFacts(entries: map<IP, int>, ttl: int, maxSize: nat, evictAt: int, now: int, ip: IP)
    requires 0 < maxSize
    ensures var e := Marked(entries, ttl, maxSize, evictAt, now, ip);
      && MarkEffect(entries, e, ttl, maxSize, evictAt, now, ip)
      && (0 <= ttl ==> Warm(e, ttl, now, ip)) && |e| <= maxSize
  {
    var unexpired := Unexpired(entries, ttl, evictAt);
    assert unexpired.Keys == set u | u in entries && evictAt - entries[u] <= ttl;
    var kept := Kept(entries, ttl, maxSize, evictAt);
    assert |kept| < maxSize;
    var e := kept[ip := now];
    assert e.Keys == kept.Keys + {ip};
    CardinalityUnion(kept.Keys, ip);
  }

  lemma KeysSmaller<V>(a: map<IP, V>, b: map<IP, V>)
    requires a.Keys <= b.Keys
    ensures |a| <= |b|
  {
    var rest := b.Keys - a.Keys;
    assert b.Keys == a.Keys + rest;
    assert |a.Keys| + |rest| == |b.Keys|;
  }

  class NdpWarmCache {
    var entries: map<IP, int>
    var inFlight: map<IP, Chan>
    var closed: set<Chan>
    var nextChan: Chan
    const ttl: int
    const maxSize: nat
    /** Every moment at which an address was marked or successfully confirmed. */
    ghost var marks: set<(IP, int)>

    ghost predicate Valid()
      reads this
    {
      && 0 < ttl && 0 < maxSize
      && |entries| <= maxSize
      && (forall ip | ip in entries :: (ip, entries[ip]) in marks)
      && (forall ip | ip in inFlight :: inFlight[ip] < nextChan && inFlight[ip] !in closed)
      && (forall a, b | a in inFlight && b in inFlight && inFlight[a] == inFlight[b] :: a == b)
      && (forall c | c in closed :: c < nextChan)
    }

    constructor (ttl0: int, maxSize0: int)
      ensures Valid() && entries == map[] && inFlight == map[] && marks == {}
      ensures ttl == (if ttl0 <= 0 then NDP_WARM_TTL else ttl0)
      ensures maxSize == (if maxSize0 <= 0 then NDP_WARM_CACHE_MAX else maxSize0)
    {
      ttl := if ttl0 <= 0 then NDP_WARM_TTL else ttl0;
      maxSize := if maxSize0 <= 0 then NDP_WARM_CACHE_MAX else maxSize0;
      entries, inFlight, closed, nextChan := map[], map[], {}, 0;
      marks := {};
    }

    method WarmLocked(key: IP, now: int) returns (warm: bool)
      requires Valid()
      modifies this`entries
      ensures Valid()
      ensures warm == Warm(old(entries), ttl, now, key)
      ensures entries == Probed(old(entries), ttl, now, key)
      ensures entries == if warm then old(entries) else old(entries) - {key}
    {
      if key !in entries {
        assert entries - {key} == entries;
        return false;
      }
      if now - entries[key] > ttl {
        KeysSmaller(entries - {key}, entries);
        entries := entries - {key};
        return false;
      }
      return true;
    }

    /** True only for an address that was marked or confirmed at most ttl ago. */
    method Seen(ip: Option<IP>, now: int) returns (seen: bool)
      requires Valid()
      modifies this`entries
      ensures Valid()
      ensures seen <==> ip.Some? && Warm(old(entries), ttl, now, ip.value)
      ensures seen ==> exists t :: (ip.value, t) in marks && now - t <= ttl
      ensures entries == if ip.Some? then Probed(old(entries), ttl, now, ip.value) else old(entries)
    {
      if ip.None? {
        return false;
      }
      seen := WarmLocked(ip.value, now);
    }

    method Mark(ip: Option<IP>, evictAt: int, now: int)
      requires Valid()
      modifies this`entries, this`marks
      ensures Valid()
      ensures entries == if ip.Some? then Marked(old(entries), ttl, maxSize, evictAt, now, ip.value) else old(entries)
      ensures marks == old(marks) + if ip.Some? then {(ip.value, now)} else {}
    {
      if ip.None? {
        return;
      }
      MarkLocked(ip.value, evictAt, now);
    }

    method MarkLocked(ip: IP, evictAt: int, now: int)
      requires Valid()
      modifies this`entries, this`marks
      ensures Valid()
      ensures entries == Marked(old(entries), ttl, maxSize, evictAt, now, ip)
      ensures MarkEffect(old(entries), entries, ttl, maxSize, evictAt, now, ip)
      ensures marks == old(marks) + {(ip, now)}
    {
      MarkedFacts(entries, ttl, maxSize, evictAt, now, ip);
      if |entries| >= maxSize {
        EvictExpiredLocked(evictAt);
        if |entries| >= maxSize {
          entries := map[];
        }
      }
      entries := entries[ip := now];
      marks := marks + {(ip, now)};
    }

    method EvictExpiredLocked(now: int)
      requires Valid()
      modifies this`entries
      ensures Valid()
      ensures entries == Unexpired(old(entries), ttl, now)
    {
      var todo := entries.Keys;
      while todo != {}
        invariant todo <= entries.Keys <= old(entries).Keys
        invariant forall k | k in entries :: entries[k] == old(entries)[k]
        invariant forall k | k in old(entries) && k !in todo ::
          k in entries <==> now - old(entries)[k] <= ttl
        decreases |todo|
      {
        var key :| key in todo;
        if now - entries[key] > ttl {
          entries := entries - {key};
        }
        todo := todo - {key};
      }
      KeysSmaller(entries, old(entries));
      assert entries == Unexpired(old(entries), ttl, now);
    }

    /** Warm, or the channel of the confirmation in flight, or a fresh channel and the lead.
        Without an address every caller leads, and nothing is recorded. */
    method BeginConfirm(ip: Option<IP>, now: int) returns (b: Begun)
      requires Valid()
      modifies this`entries, this`inFlight, this`nextChan
      ensures Valid()
      ensures ip.None? ==> b.Lead? && entries == old(entries) && inFlight == old(inFlight) && nextChan == old(nextChan)
      ensures ip.Some? ==>
        && entries == Probed(old(entries), ttl, now, ip.value)
        && (b.AlreadyWarm? <==> Warm(old(entries), ttl, now, ip.value))
        && (b.Wait? ==> ip.value in old(inFlight) && b.done == old(inFlight)[ip.value])
        && (b.Lead? ==> ip.value !in old(inFlight) && b.done == old(nextChan))
        && inFlight == (if b.Lead? then old(inFlight)[ip.value := b.done] else old(inFlight))
        && nextChan == (if b.Lead? then old(nextChan) + 1 else old(nextChan))
    {
      if ip.None? {
        return Lead(nextChan);
      }
      var warm := WarmLocked(ip.value, now);
      if warm {
        return AlreadyWarm;
      }
      if ip.value in inFlight {
        return Wait(inFlight[ip.value]);
      }
      b := Lead(nextChan);
      inFlight := inFlight[ip.value := nextChan];
      nextChan := nextChan + 1;
    }

    /** The locked section of finishConfirm; the waiter it removed is closed afterwards. */
    method FinishLocked(ip: IP, succeeded: bool, evictAt: int, now: int) returns (waiter: Option<Chan>)
      requires Valid()
      modifies this`entries, this`inFlight, this`marks
      ensures Valid()
      ensures waiter == if ip in old(inFlight) then Some(old(inFlight)[ip]) else None
      ensures inFlight == old(inFlight) - {ip}
      ensures entries == if succeeded then Marked(old(entries), ttl, maxSize, evictAt, now, ip) else old(entries)
      ensures marks == old(marks) + if succeeded then {(ip, now)} else {}
      ensures waiter.Some? ==> waiter.value !in closed && waiter.value < nextChan
      ensures waiter.Some? ==> forall k | k in inFlight :: inFlight[k] != waiter.value
    {
      waiter := if ip in inFlight then Some(inFlight[ip]) else None;
      inFlight := inFlight - {ip};
      if succeeded {
        MarkLocked(ip, evictAt, now);
      }
    }

    /** A successful confirmation makes the address warm; whoever waited is woken, once. */
    method FinishConfirm(ip: Option<IP>, succeeded: bool, evictAt: int, now: int)
      requires Valid()
      modifies this
      ensures Valid() && nextChan == old(nextChan)
      ensures ip.None? ==> entries == old(entries) && inFlight == old(inFlight) && closed == old(closed)
      ensures ip.Some? ==>
        && inFlight == old(inFlight) - {ip.value}
        && closed == old(closed) + (if ip.value in old(inFlight) then {old(inFlight)[ip.value]} else {})
        && entries == (if succeeded then Marked(old(entries), ttl, maxSize, evictAt, now, ip.value) else old(entries))
        && (succeeded ==> Warm(entries, ttl, now, ip.value))
    {
      if ip.None? {
        return;
      }
      var waiter := FinishLocked(ip.value, succeeded, evictAt, now);
      if waiter.Some? {
        CloseChan(waiter.value);
      }
    }

    /** close(done): closing a closed channel panics, so the channel has to be open. */
    method CloseChan(c: Chan)
      requires Valid() && c !in closed && c < nextChan
      requires forall k | k in inFlight :: inFlight[k] != c
      modifies this`closed
      ensures Valid() && closed == old(closed) + {c}
    {
      closed := closed + {c};
    }
  }
}
