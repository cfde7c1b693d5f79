/** The DID resolver's cache, in-flight sharing and expiry (src/resolver.js). */
module Resolver {
  import opened Wrappers
  import opened Strings
  import opened OrderedMap
  import opened LruCache
  import DidScid

  /** A promise a handler returned. A settled one remembers when, and the lifetime then in force. */
  datatype Outcome = Pending | Failed | Settled(result: Resolution, at: int, ttl: int)

  datatype Call = Call(did: string, versionTime: bool, shared: bool, outcome: Outcome)

  datatype Memory = Memory(cache: Cache, inflight: map<string, nat>, ttl: int, calls: seq<Call>)

  /** What a caller or a handler's promise does; `now` is the clock at that moment. */
  datatype Event =
    | Resolve(did: string, versionTime: bool, now: int)
    | Succeed(call: nat, result: Resolution, now: int)
    | Fail(call: nat)
    | ClearCache
    | Invalidate(did: string)
    | SetCacheTtl(ms: int)

  /** A rejection, a cached result, or the call whose promise is returned. */
  datatype Answer = Rejected | Hit(result: Resolution) | Joined(call: nat) | Started(call: nat)

  function ParseMethod(did: string): Option<string> {
    if !StartsWith(did, "did:") then None
    else
      var rest := did[4..];
      var colon := IndexOf(rest, ':');
      if colon == |rest| then None else Some(rest[..colon])
  }

  function CacheKey(did: string): string {
    DidScid.StripScidSrc(did)
  }

  predicate IsCacheable(r: Resolution) {
    r.document.Some? && r.error.None?
  }

  predicate UsesCache(did: string, versionTime: bool, ttl: int, limit: real) {
    match ParseMethod(did)
    case None => false
    case Some(name) => !versionTime && ttl > 0 && limit != 0.0 && name != "key" && name != "peer"
  }

  predicate IsPending(m: Memory, call: nat) {
    call < |m.calls| && m.calls[call].outcome.Pending?
  }

  /** What an event does to the cache. */
  function Effect(m: Memory, limit: real, e: Event): Option<Op> {
    match e
    case Resolve(did, versionTime, now) =>
      if UsesCache(did, versionTime, m.ttl, limit) then Some(Lookup(CacheKey(did), now)) else None
    case Succeed(c, result, now) =>
      if IsPending(m, c) && m.calls[c].shared && IsCacheable(result)
      then Some(Put(CacheKey(m.calls[c].did), Stored(now + m.ttl, result), now)) else None
    case Fail(_) => None
    case ClearCache => Some(Clear)
    case Invalidate(did) => Some(Remove(CacheKey(did)))
    case SetCacheTtl(ms) => if ms <= 0 then Some(Clear) else None
  }

  function NextCache(m: Memory, limit: real, e: Event): Cache {
    match Effect(m, limit, e)
    case None => m.cache
    case Some(op) => Apply(m.cache, limit, op)
  }

  function Reply(m: Memory, limit: real, did: string, versionTime: bool, now: int): Answer {
    if ParseMethod(did).None? then Rejected
    else if !UsesCache(did, versionTime, m.ttl, limit) then Started(|m.calls|)
    else
      match Found(m.cache, CacheKey(did), now)
      case Some(s) => Hit(s.result)
      case None => if did in m.inflight then Joined(m.inflight[did]) else Started(|m.calls|)
  }

  function Settle(m: Memory, call: nat, outcome: Outcome, cache: Cache): Memory
    requires call < |m.calls|
  {
    var c := m.calls[call];
    Memory(cache, if c.shared then m.inflight - {c.did} else m.inflight, m.ttl, m.calls[call := c.(outcome := outcome)])
  }

  function Step(m: Memory, limit: real, e: Event): Memory {
    var cache := NextCache(m, limit, e);
    match e
    case Resolve(did, versionTime, now) =>
      if !Reply(m, limit, did, versionTime, now).Started? then m.(cache := cache)
      else
        var shared := UsesCache(did, versionTime, m.ttl, limit);
        Memory(cache, if shared then m.inflight[did := |m.calls|] else m.inflight, m.ttl,
               m.calls + [Call(did, versionTime, shared, Pending)])
    case Succeed(call, result, now) =>
      if IsPending(m, call) then Settle(m, call, Settled(result, now, m.ttl), cache) else m
    case Fail(call) => if IsPending(m, call) then Settle(m, call, Failed, cache) else m
    case ClearCache => m.(cache := cache)
    case Invalidate(_) => m.(cache := cache)
    case SetCacheTtl(ms) => m.(cache := cache, ttl := ms)
  }

  function Start(ttl: int): Memory {
    Memory([], map[], ttl, [])
  }

  function After(ttl: int, limit: real, es: seq<Event>, n: nat): Memory
    requires n <= |es|
  {
    if n == 0 then Start(ttl) else Step(After(ttl, limit, es, n - 1), limit, es[n - 1])
  }

  // ----- what is answered from the cache

  /** The method of a DID is what stands between its first two colons. */
  lemma MethodExactly(did: string, name: string)
    ensures ParseMethod(did) == Some(name) <==> ':' !in name && exists rest :: did == "did:" + (name + [':'] + rest)
  {
    hide IndexOf;
    if ParseMethod(did) == Some(name) {
      var tail := did[4..];
      assert did == "did:" + tail && tail == name + [':'] + tail[|name| + 1..];
    }
    if rest :| ':' !in name && did == "did:" + (name + [':'] + rest) {
      assert name + [':'] + rest == name + ([':'] + rest);
      assert did[4..] == name + ([':'] + rest);
      IndexAtJoin(name, [':'] + rest, ':');
    }
  }

  /** Which calls never touch the cache and are never shared. */
  lemma BypassesExactly(m: Memory, limit: real, did: string, versionTime: bool, now: int)
    ensures Reply(m, limit, did, versionTime, now) == Rejected <==> ParseMethod(did) == None
    ensures ParseMethod(did).Some? && (versionTime || m.ttl <= 0 || limit == 0.0 || ParseMethod(did) == Some("key") || ParseMethod(did) == Some("peer"))
      ==> Reply(m, limit, did, versionTime, now) == Started(|m.calls|)
          && Step(m, limit, Resolve(did, versionTime, now)) == m.(calls := m.calls + [Call(did, versionTime, false, Pending)])
  {
    hide ParseMethod, CacheKey, Apply;
  }

  /**
   What a shared call gives is served under its key until its lifetime has passed, if it has a document and
   no error; any other result leaves the cache alone. Either way the call is no longer in flight.
   */
  lemma SuccessIsServed(m: Memory, limit: real, c: nat, r: Resolution, at: int, did: string, now: int)
    requires limit > 0.0 && IsPending(m, c) && m.calls[c].shared
    requires CacheKey(did) == CacheKey(m.calls[c].did)
    requires m.ttl > 0 && ParseMethod(did).Some? && ParseMethod(did) != Some("key") && ParseMethod(did) != Some("peer")
    ensures var next := Step(m, limit, Succeed(c, r, at));
      && m.calls[c].did !in next.inflight && !IsPending(next, c)
      && (r.document.Some? && r.error.None? && now < at + m.ttl ==> Reply(next, limit, did, false, now) == Hit(r))
      && (r.document.Some? && r.error.None? && now >= at + m.ttl ==> !Reply(next, limit, did, false, now).Hit?)
      && (r.document.None? || r.error.Some? ==> next.cache == m.cache)
  {
    hide ParseMethod, CacheKey, Apply, Found;
    var next := Step(m, limit, Succeed(c, r, at));
    var key, s := CacheKey(did), Stored(at + m.ttl, r);
    PutIsFound(m.cache, limit, key, s, at, now);
    assert IsCacheable(r) ==> next.cache == Apply(m.cache, limit, Put(key, s, at));
  }

  /** A rejected call is no longer in flight, so the next caller starts a new one; nothing is cached. */
  lemma FailureIsRetried(m: Memory, limit: real, c: nat, now: int)
    requires IsPending(m, c) && m.calls[c].shared && UsesCache(m.calls[c].did, false, m.ttl, limit)
    ensures var next, did := Step(m, limit, Fail(c)), m.calls[c].did;
      && next.cache == m.cache && !IsPending(next, c)
      && (!Reply(next, limit, did, false, now).Hit? ==> Reply(next, limit, did, false, now) == Started(|m.calls|))
  {
    hide ParseMethod, CacheKey, Found;
  }

  lemma PutIsFound(cache: Cache, limit: real, k: string, s: Stored, at: int, now: int)
    ensures Found(Apply(cache, limit, Put(k, s, at)), k, now) == if s.expires > now then Some(s) else None
  {
    hide EvictFor;
    SetIsFound(EvictFor(cache, limit, at), k, s);
    hide Set, Get;
  }

  lemma SetIsFound(cache: Cache, k: string, s: Stored)
    ensures Get(Set(cache, k, s), k) == Some(s)
  {
    hide IndexOfKey;
    var i := IndexOfKey(cache, k);
    IndexIs(Set(cache, k, s), i);
  }

  /** What the three calls that forget drop: one identity, everything, everything when the lifetime is not positive. */
  lemma ForgetsExactly(m: Memory, limit: real, did: string, ms: int)
    requires Distinct(m.cache)
    ensures var next := Step(m, limit, Invalidate(did));
      && next == m.(cache := next.cache)
      && (forall x :: x in next.cache <==> x in m.cache && x.key != CacheKey(did))
    ensures Step(m, limit, ClearCache) == m.(cache := [])
    ensures Step(m, limit, SetCacheTtl(ms)) == m.(ttl := ms, cache := if ms <= 0 then [] else m.cache)
  {
    hide CacheKey;
    DeleteKeepsDistinct(m.cache, CacheKey(did));
    DeletedEntries(m.cache, CacheKey(did));
    hide Delete;
  }

  lemma DeletedEntries(cache: Cache, k: string)
    requires Distinct(cache)
    ensures forall x :: x in Delete(cache, k) <==> x in cache && x.key != k
  {
    hide IndexOfKey;
    DeleteKeepsDistinct(cache, k);
    var i, rest := IndexOfKey(cache, k), Delete(cache, k);
    forall x | x in cache && x.key != k ensures x in rest {
      var j :| 0 <= j < |cache| && cache[j] == x;
      assert rest[if j < i then j else j - 1] == x;
    }
  }

  // ----- what every event keeps

  /** The call that gave a cached entry. */
  predicate Gave(c: Call, key: string, s: Stored) {
    && c.shared && !c.versionTime && CacheKey(c.did) == key
    && c.outcome.Settled? && c.outcome.result == s.result && IsCacheable(s.result)
    && s.expires == c.outcome.at + c.outcome.ttl
  }

  ghost predicate Sourced(calls: seq<Call>, key: string, s: Stored) {
    exists c :: c in calls && Gave(c, key, s)
  }

  /** Cached entries come from settled calls. */
  ghost predicate CacheIsSourced(m: Memory) {
    forall i :: 0 <= i < |m.cache| ==> Sourced(m.calls, m.cache[i].key, m.cache[i].value)
  }

  /** In-flight entries and unsettled shared calls are the same thing. */
  ghost predicate InflightIsPending(m: Memory) {
    && (forall d :: d in m.inflight ==> IsPending(m, m.inflight[d]) && m.calls[m.inflight[d]].shared && m.calls[m.inflight[d]].did == d)
    && (forall c :: 0 <= c < |m.calls| && m.calls[c].shared && m.calls[c].outcome.Pending? ==>
          m.calls[c].did in m.inflight && m.inflight[m.calls[c].did] == c)
    && (forall c :: 0 <= c < |m.calls| && m.calls[c].shared ==> !m.calls[c].versionTime)
  }

  ghost predicate Inv(m: Memory, limit: real) {
    LruCache.Inv(m.cache, limit) && CacheIsSourced(m) && InflightIsPending(m)
  }

  /** Entries after an operation were there before, except the one just stored. */
  lemma ApplyEntries(cache: Cache, limit: real, op: Op)
    requires limit > 0.0 && LruCache.Inv(cache, limit)
    ensures forall x :: x in Apply(cache, limit, op) ==> x in cache || (op.Put? && x == Entry(op.key, op.stored))
  {
    hide IndexOfKey, EvictFor;
    if op.Put? {
      EvictsOne(cache, limit, op.now);
      var room := EvictFor(cache, limit, op.now);
      assert forall x :: x in room ==> x in cache;
      hide Victim;
      SetEntries(room, op.key, op.stored);
    } else if op.Lookup? && Get(cache, op.key).Some? {
      assert Entry(op.key, Get(cache, op.key).value) in cache;
      assert forall x :: x in Delete(cache, op.key) ==> x in cache;
    }
  }

  lemma SetEntries(cache: Cache, k: string, s: Stored)
    ensures forall x :: x in Set(cache, k, s) ==> x in cache || x == Entry(k, s)
  {
    hide IndexOfKey;
  }

  lemma NextCacheSourced(m: Memory, limit: real, e: Event)
    requires limit > 0.0 && Inv(m, limit)
    ensures LruCache.Inv(NextCache(m, limit, e), limit)
    ensures CacheIsSourced(Step(m, limit, e))
  {
    hide Apply, ParseMethod, UsesCache, CacheKey, LruCache.Inv, Reply;
    var next := Step(m, limit, e);
    if Effect(m, limit, e).Some? {
      var op := Effect(m, limit, e).value;
      ApplyKeepsInv(m.cache, limit, op);
      ApplyEntries(m.cache, limit, op);
    }
    forall i | 0 <= i < |next.cache| ensures Sourced(next.calls, next.cache[i].key, next.cache[i].value) {
      var x := next.cache[i];
      if x in m.cache {
        SourcedStays(m, limit, e, x);
      } else {
        assert e.Succeed? && Gave(next.calls[e.call], x.key, x.value);
      }
    }
  }

  lemma SourcedStays(m: Memory, limit: real, e: Event, x: Entry<Stored>)
    requires Inv(m, limit) && x in m.cache
    ensures Sourced(Step(m, limit, e).calls, x.key, x.value)
  {
    hide NextCache, ParseMethod, UsesCache, CacheKey, LruCache.Inv, Reply, InflightIsPending;
    var next := Step(m, limit, e);
    var i :| 0 <= i < |m.cache| && m.cache[i] == x;
    assert Sourced(m.calls, x.key, x.value);
    var c :| c in m.calls && Gave(c, x.key, x.value);
    var j :| 0 <= j < |m.calls| && m.calls[j] == c;
    assert next.calls[j] == c;
  }

  lemma StepKeepsInflight(m: Memory, limit: real, e: Event)
    requires InflightIsPending(m)
    ensures InflightIsPending(Step(m, limit, e))
  {
    hide NextCache, ParseMethod, CacheKey, Found;
    match e
    case Resolve(did, versionTime, now) =>
      if Reply(m, limit, did, versionTime, now).Started? { StartKeepsInflight(m, limit, e); }
    case Succeed(call, result, now) =>
      if IsPending(m, call) { SettleKeepsInflight(m, call, Settled(result, now, m.ttl), NextCache(m, limit, e)); }
    case Fail(call) =>
      if IsPending(m, call) { SettleKeepsInflight(m, call, Failed, NextCache(m, limit, e)); }
    case ClearCache =>
    case Invalidate(_) =>
    case SetCacheTtl(_) =>
  }

  lemma StartKeepsInflight(m: Memory, limit: real, e: Event)
    requires InflightIsPending(m) && e.Resolve? && Reply(m, limit, e.did, e.versionTime, e.now).Started?
    ensures InflightIsPending(Step(m, limit, e))
  {
    hide NextCache, ParseMethod, CacheKey, Found;
    if UsesCache(e.did, e.versionTime, m.ttl, limit) { assert e.did !in m.inflight; }
    var next := Step(m, limit, e);
    assert forall c :: 0 <= c < |m.calls| ==> next.calls[c] == m.calls[c];
  }

  lemma SettleKeepsInflight(m: Memory, call: nat, outcome: Outcome, cache: Cache)
    requires InflightIsPending(m) && IsPending(m, call) && !outcome.Pending?
    ensures InflightIsPending(Settle(m, call, outcome, cache))
  {
    var next := Settle(m, call, outcome, cache);
    assert forall c :: 0 <= c < |m.calls| && c != call ==> next.calls[c] == m.calls[c];
  }

  lemma StepKeepsInv(m: Memory, limit: real, e: Event)
    requires limit > 0.0 && Inv(m, limit)
    ensures Inv(Step(m, limit, e), limit)
  {
    NextCacheSourced(m, limit, e);
    StepKeepsInflight(m, limit, e);
    hide NextCache, CacheIsSourced, InflightIsPending, LruCache.Inv, Reply, UsesCache;
  }

  lemma {:induction false} RunKeepsInv(ttl: int, limit: real, es: seq<Event>, n: nat)
    requires limit > 0.0 && n <= |es|
    ensures Inv(After(ttl, limit, es, n), limit)
  {
    if n > 0 {
      RunKeepsInv(ttl, limit, es, n - 1);
      StepKeepsInv(After(ttl, limit, es, n - 1), limit, es[n - 1]);
    }
  }

  // ----- the promises

  /** A whole-number limit is never exceeded. */
  lemma SizeIsBounded(ttl: int, limit: int, es: seq<Event>, n: nat)
    requires limit >= 1 && n <= |es|
    ensures |After(ttl, limit as real, es, n).cache| <= limit
  {
    RunKeepsInv(ttl, limit as real, es, n);
    hide After;
  }

  predicate GaveUntil(c: Call, key: string, r: Resolution, now: int) {
    && !c.versionTime && CacheKey(c.did) == key
    && c.outcome.Settled? && c.outcome.result == r && now < c.outcome.at + c.outcome.ttl
  }

  /** A hit was given by a handler call without `versionTime` for a DID with that key, and its lifetime has not passed. */
  lemma HitProvenance(ttl: int, limit: real, es: seq<Event>, n: nat, did: string, versionTime: bool, now: int)
    requires limit > 0.0 && n <= |es|
    requires Reply(After(ttl, limit, es, n), limit, did, versionTime, now).Hit?
    ensures !versionTime
    ensures var m := After(ttl, limit, es, n); var r := Reply(m, limit, did, versionTime, now).result;
      r.document.Some? && r.error.None? && exists c :: c in m.calls && GaveUntil(c, CacheKey(did), r, now)
  {
    RunKeepsInv(ttl, limit, es, n);
    hide After, ParseMethod, CacheKey, InflightIsPending, LruCache.Inv, IndexOfKey;
    var m := After(ttl, limit, es, n);
    var i := IndexOfKey(m.cache, CacheKey(did));
    assert Sourced(m.calls, m.cache[i].key, m.cache[i].value);
  }

  /** Callers that wait share the one unsettled call of their DID. */
  lemma WaitersShareOneCall(ttl: int, limit: real, es: seq<Event>, n: nat, did: string, now: int)
    requires limit > 0.0 && n <= |es|
    requires var m := After(ttl, limit, es, n); UsesCache(did, false, m.ttl, limit) && !Reply(m, limit, did, false, now).Hit?
    ensures var m := After(ttl, limit, es, n); var next := Step(m, limit, Resolve(did, false, now));
      var c := Reply(m, limit, did, false, now).call;
      && IsPending(next, c) && next.calls[c].did == did
      && forall d :: 0 <= d < |next.calls| && next.calls[d].shared && next.calls[d].did == did && next.calls[d].outcome.Pending? ==> d == c
  {
    RunKeepsInv(ttl, limit, es, n);
    var m := After(ttl, limit, es, n);
    StepKeepsInflight(m, limit, Resolve(did, false, now));
    hide After, ParseMethod, CacheKey, LruCache.Inv, NextCache, Found;
  }

  // ----- recency

  ghost predicate NoSharedKeys(m: Memory) {
    forall d, d' :: d in m.inflight && d' in m.inflight && CacheKey(d) == CacheKey(d') ==> d == d'
  }

  /** What is being resolved is not cached. */
  ghost predicate InflightNotCached(m: Memory) {
    forall d :: d in m.inflight ==> !Holds(m.cache, CacheKey(d))
  }

  lemma StepKeepsNotCached(m: Memory, limit: real, e: Event)
    requires limit > 0.0 && Inv(m, limit) && NoSharedKeys(m) && InflightNotCached(m)
    ensures InflightNotCached(Step(m, limit, e))
    ensures Effect(m, limit, e).Some? && Effect(m, limit, e).value.Put? ==> !Holds(m.cache, Effect(m, limit, e).value.key)
  {
    hide ParseMethod, CacheKey, IndexOfKey, Apply, Sourced, Distinct;
    var next := Step(m, limit, e);
    forall d | d in next.inflight ensures !Holds(next.cache, CacheKey(d)) {
      if d in m.inflight {
        if Effect(m, limit, e).Some? {
          var op := Effect(m, limit, e).value;
          ApplyEntries(m.cache, limit, op);
          LacksKey(m.cache, next.cache, op, CacheKey(d));
        }
      } else {
        LookupMisses(m.cache, limit, CacheKey(d), e.now);
      }
    }
  }

  lemma LacksKey(cache: Cache, next: Cache, op: Op, k: string)
    requires !Holds(cache, k) && (op.Put? ==> op.key != k)
    requires forall x :: x in next ==> x in cache || (op.Put? && x == Entry(op.key, op.stored))
    ensures !Holds(next, k)
  {
    hide IndexOfKey;
    assert forall x :: x in next ==> x.key != k;
  }

  lemma LookupMisses(cache: Cache, limit: real, k: string, now: int)
    requires Distinct(cache) && Found(cache, k, now).None?
    ensures !Holds(Apply(cache, limit, Lookup(k, now)), k)
  {
    DeleteKeepsDistinct(cache, k);
    hide IndexOfKey;
  }

  /** The cache operations of the first n events. */
  function Ops(ttl: int, limit: real, es: seq<Event>, n: nat): seq<Op>
    requires n <= |es|
  {
    if n == 0 then []
    else
      var before := Ops(ttl, limit, es, n - 1);
      match Effect(After(ttl, limit, es, n - 1), limit, es[n - 1])
      case None => before
      case Some(op) => before + [op]
  }

  lemma {:induction false} CacheIsRun(ttl: int, limit: real, es: seq<Event>, n: nat)
    requires n <= |es|
    ensures var ops := Ops(ttl, limit, es, n); After(ttl, limit, es, n).cache == LruCache.After(limit, ops, |ops|)
  {
    hide Apply, Effect, Reply;
    if n > 0 {
      CacheIsRun(ttl, limit, es, n - 1);
      var before := Ops(ttl, limit, es, n - 1);
      match Effect(After(ttl, limit, es, n - 1), limit, es[n - 1])
      case None => StepCache(After(ttl, limit, es, n - 1), limit, es[n - 1]);
      case Some(op) =>
        AfterPrefix(limit, before, [op], |before|);
        StepCache(After(ttl, limit, es, n - 1), limit, es[n - 1]);
    }
  }

  lemma StepCache(m: Memory, limit: real, e: Event)
    ensures Step(m, limit, e).cache == NextCache(m, limit, e)
  {
    hide Apply, UsesCache, ParseMethod, CacheKey, Found;
  }

  ghost predicate NeverSharedKeys(ttl: int, limit: real, es: seq<Event>, n: nat)
    requires n <= |es|
  {
    forall i :: 0 <= i <= n ==> NoSharedKeys(After(ttl, limit, es, i))
  }

  /** When no two DIDs in flight share a key, nothing is stored under a cached key. */
  lemma {:induction false} StoresAreFresh(ttl: int, limit: real, es: seq<Event>, n: nat)
    requires limit > 0.0 && n <= |es| && NeverSharedKeys(ttl, limit, es, n)
    ensures var ops := Ops(ttl, limit, es, n); FreshPuts(limit, ops, |ops|)
    ensures InflightNotCached(After(ttl, limit, es, n))
  {
    hide Apply, Effect, Step, NoSharedKeys, InflightNotCached;
    if n == 0 {
      assert InflightNotCached(Start(ttl)) by { StartIsFresh(ttl); }
    } else {
      var m, before := After(ttl, limit, es, n - 1), Ops(ttl, limit, es, n - 1);
      StoresAreFresh(ttl, limit, es, n - 1);
      RunKeepsInv(ttl, limit, es, n - 1);
      assert NoSharedKeys(m);
      StepKeepsNotCached(m, limit, es[n - 1]);
      CacheIsRun(ttl, limit, es, n - 1);
      match Effect(m, limit, es[n - 1])
      case None =>
      case Some(op) =>
        var ops := before + [op];
        forall i | 0 <= i < |ops| && ops[i].Put? ensures !Holds(LruCache.After(limit, ops, i), ops[i].key) {
          AfterPrefix(limit, before, [op], i);
          if i < |before| { assert ops[i] == before[i]; }
        }
    }
  }

  lemma StartIsFresh(ttl: int)
    ensures InflightNotCached(Start(ttl))
  {
  }

  /**
   The resolver's cache runs as a timestamp LRU with expiry. Storing counts as a use
   in every run in which no two DIDs in flight share a cache key.
   */
  lemma RefinesTimestampLru(ttl: int, limit: real, es: seq<Event>, n: nat, refresh: bool) returns (ls: seq<Lru>)
    requires limit > 0.0 && n <= |es| && (refresh ==> NeverSharedKeys(ttl, limit, es, n))
    ensures var ops := Ops(ttl, limit, es, n);
      IsRun(limit, ops, |ops|, ls, refresh) && Represents(After(ttl, limit, es, n).cache, ls[|ops|])
  {
    hide After, Ops, NeverSharedKeys, FreshPuts, RefreshingPuts, Represents, LruCache.After, LruStep;
    var ops := Ops(ttl, limit, es, n);
    CacheIsRun(ttl, limit, es, n);
    if refresh {
      StoresAreFresh(ttl, limit, es, n);
      FreshPutsRefresh(limit, ops, |ops|);
    }
    ls := RunRefines(limit, ops, |ops|, refresh);
    assert Represents(LruCache.After(limit, ops, |ops|), ls[|ops|]) by { Last(limit, ops, ls); }
  }

  lemma Last(limit: real, ops: seq<Op>, ls: seq<Lru>)
    requires |ls| == |ops| + 1 && AllRepresented(limit, ops, |ops|, ls)
    ensures Represents(LruCache.After(limit, ops, |ops|), ls[|ops|])
  {
  }

  /** A call that succeeds now stores under a key that is not cached once room is made, or is then the most recently used. */
  ghost predicate StoreRefreshes(m: Memory, limit: real, e: Event) {
    var op := Effect(m, limit, e);
    op.Some? && op.value.Put? ==> Refreshes(m.cache, limit, op.value.now, op.value.key)
  }

  /**
   Exactly when storing counts as a use: a run is a run of the plain timestamp LRU if and only if
   every store of it finds its key uncached, or most recently used, after making room.
   */
  lemma RefreshesExactly(ttl: int, limit: real, es: seq<Event>, n: nat)
    requires limit > 0.0 && n <= |es|
    ensures var ops := Ops(ttl, limit, es, n);
      (exists ls :: IsRun(limit, ops, |ops|, ls, true) && AllRepresented(limit, ops, |ops|, ls))
      <==> forall i :: 0 <= i < n ==> StoreRefreshes(After(ttl, limit, es, i), limit, es[i])
  {
    RunIsPureExactly(limit, Ops(ttl, limit, es, n), |Ops(ttl, limit, es, n)|);
    StoresAreOps(ttl, limit, es, n);
  }

  lemma {:induction false} StoresAreOps(ttl: int, limit: real, es: seq<Event>, n: nat)
    requires n <= |es|
    ensures var ops := Ops(ttl, limit, es, n);
      RefreshingPuts(limit, ops, |ops|) <==> forall i :: 0 <= i < n ==> StoreRefreshes(After(ttl, limit, es, i), limit, es[i])
  {
    hide Apply, Effect, Step, Refreshes;
    if n > 0 {
      var m, before := After(ttl, limit, es, n - 1), Ops(ttl, limit, es, n - 1);
      StoresAreOps(ttl, limit, es, n - 1);
      CacheIsRun(ttl, limit, es, n - 1);
      match Effect(m, limit, es[n - 1])
      case None => assert StoreRefreshes(m, limit, es[n - 1]);
      case Some(op) =>
        PutsGrow(limit, before, op);
        assert StoreRefreshes(m, limit, es[n - 1]) <==> (op.Put? ==> Refreshes(m.cache, limit, op.now, op.key));
    }
  }

  lemma PutsGrow(limit: real, before: seq<Op>, op: Op)
    ensures RefreshingPuts(limit, before + [op], |before| + 1) <==>
      RefreshingPuts(limit, before, |before|)
      && (op.Put? ==> Refreshes(LruCache.After(limit, before, |before|), limit, op.now, op.key))
  {
    hide Apply, Refreshes;
    var ops, k := before + [op], |before|;
    forall i | 0 <= i <= k ensures LruCache.After(limit, ops, i) == LruCache.After(limit, before, i) { AfterPrefix(limit, before, [op], i); }
    hide LruCache.After;
    if RefreshingPuts(limit, ops, k + 1) {
      forall i | 0 <= i < k && before[i].Put? ensures Refreshes(LruCache.After(limit, before, i), limit, before[i].now, before[i].key) {
        assert ops[i] == before[i];
      }
      assert ops[k] == op;
    }
  }

  // ----- two DIDs with one key

  /** A shared call that succeeds stores its result and leaves the map of calls in flight. */
  lemma SucceedStores(m: Memory, limit: real, c: nat, r: Resolution, now: int)
    requires IsPending(m, c) && m.calls[c].shared && IsCacheable(r)
    ensures Step(m, limit, Succeed(c, r, now)) ==
      Memory(Apply(m.cache, limit, Put(CacheKey(m.calls[c].did), Stored(now + m.ttl, r), now)),
             m.inflight - {m.calls[c].did}, m.ttl, m.calls[c := m.calls[c].(outcome := Settled(r, now, m.ttl))])
  {
    hide Apply, CacheKey;
  }

  /** A DID neither cached nor in flight starts a call. */
  lemma ResolveStarts(m: Memory, limit: real, did: string, now: int)
    requires UsesCache(did, false, m.ttl, limit) && m.cache == [] && did !in m.inflight
    ensures Step(m, limit, Resolve(did, false, now)) ==
      m.(inflight := m.inflight[did := |m.calls|], calls := m.calls + [Call(did, false, true, Pending)])
  {
    hide ParseMethod, CacheKey;
  }

  /** Five DIDs that use the cache, the first two with one key, the others with keys of their own. */
  predicate TwoShareAKey(ds: seq<string>, ttl: int, limit: real) {
    && |ds| == 5 && ds[0] != ds[1] && CacheKey(ds[0]) == CacheKey(ds[1])
    && (forall i :: 0 <= i < 5 ==> UsesCache(ds[i], false, ttl, limit))
    && (forall i, j :: 1 <= i < j < 5 ==> CacheKey(ds[i]) != CacheKey(ds[j]))
  }

  lemma ScidUsesCache(did: string, src: string, ttl: int, limit: real)
    requires DidScid.IsBare(did) && DidScid.IsSource(src) && ttl > 0 && limit > 0.0
    ensures UsesCache(DidScid.WithScidSrc(did, src), false, ttl, limit)
  {
    var d := DidScid.WithScidSrc(did, src);
    assert StartsWith(d, DidScid.PREFIX) by {
      DidScid.SrcRoundTrip(did, src);
      assert DidScid.ScidSrc(d).Some?;
    }
    hide IndexOf, DidScid.WithScidSrc;
    var rest := d[4..];
    assert d[..9] == "did:scid:";
    assert StartsWith(d, "did:") && rest[..4] == "scid" && rest[4] == ':';
    IndexOfIs(rest, ':', 4);
  }

  lemma SourcedKey(did: string, src: string, ttl: int, limit: real)
    requires DidScid.IsBare(did) && DidScid.IsSource(src) && ttl > 0 && limit > 0.0
    ensures var d := DidScid.WithScidSrc(did, src);
      CacheKey(d) == did && DidScid.ScidSrc(d) == Some(src) && UsesCache(d, false, ttl, limit)
  {
    DidScid.SrcRoundTrip(did, src);
    ScidUsesCache(did, src, ttl, limit);
  }

  /** Two sources of one did:scid share a key; others have their own. */
  lemma SharedKeysOccur(dids: seq<string>, x: string, y: string, ttl: int, limit: real)
    requires |dids| == 4 && (forall i :: 0 <= i < 4 ==> DidScid.IsBare(dids[i]))
    requires (forall i, j :: 0 <= i < j < 4 ==> dids[i] != dids[j])
    requires DidScid.IsSource(x) && DidScid.IsSource(y) && x != y && ttl > 0 && limit > 0.0
    ensures TwoShareAKey([DidScid.WithScidSrc(dids[0], x), DidScid.WithScidSrc(dids[0], y), DidScid.WithScidSrc(dids[1], x),
                          DidScid.WithScidSrc(dids[2], x), DidScid.WithScidSrc(dids[3], x)], ttl, limit)
  {
    hide CacheKey, UsesCache, DidScid.WithScidSrc, DidScid.ScidSrc, DidScid.IsBare, DidScid.IsSource;
    SourcedKey(dids[0], x, ttl, limit);
    SourcedKey(dids[0], y, ttl, limit);
    SourcedKey(dids[1], x, ttl, limit);
    SourcedKey(dids[2], x, ttl, limit);
    SourcedKey(dids[3], x, ttl, limit);
    var ds := [DidScid.WithScidSrc(dids[0], x), DidScid.WithScidSrc(dids[0], y), DidScid.WithScidSrc(dids[1], x),
               DidScid.WithScidSrc(dids[2], x), DidScid.WithScidSrc(dids[3], x)];
    forall j | 1 <= j < 5 ensures CacheKey(ds[j]) == dids[j - 1] {}
    forall j | 0 <= j < 5 ensures UsesCache(ds[j], false, ttl, limit) {}
  }

  function Starts(ds: seq<string>): seq<Event> {
    seq(|ds|, i requires 0 <= i < |ds| => Resolve(ds[i], false, 0))
  }

  function Pendings(ds: seq<string>): (cs: seq<Call>)
    ensures |cs| == |ds| && forall i :: 0 <= i < |ds| ==> cs[i] == Call(ds[i], false, true, Pending)
  {
    seq(|ds|, i requires 0 <= i < |ds| => Call(ds[i], false, true, Pending))
  }

  ghost predicate DistinctDids(ds: seq<string>) {
    forall i, j :: 0 <= i < j < |ds| ==> ds[i] != ds[j]
  }

  /** Resolving distinct DIDs puts each in flight. */
  lemma {:induction false} AllStart(ds: seq<string>, ttl: int, limit: real, es: seq<Event>, n: nat)
    requires n <= |ds| <= |es| && (forall i :: 0 <= i < |ds| ==> es[i] == Resolve(ds[i], false, 0))
    requires forall i :: 0 <= i < |ds| ==> UsesCache(ds[i], false, ttl, limit)
    requires DistinctDids(ds)
    ensures var m := After(ttl, limit, es, n);
      && m.cache == [] && m.ttl == ttl && m.calls == Pendings(ds[..n])
      && forall i :: 0 <= i < |ds| ==> (ds[i] in m.inflight <==> i < n)
  {
    hide UsesCache, Step;
    if n > 0 {
      AllStart(ds, ttl, limit, es, n - 1);
      var m := After(ttl, limit, es, n - 1);
      ResolveStarts(m, limit, ds[n - 1], 0);
      assert ds[..n] == ds[..n - 1] + [ds[n - 1]];
      assert Pendings(ds[..n]) == Pendings(ds[..n - 1]) + [Call(ds[n - 1], false, true, Pending)];
    }
  }

  /** A run of a resolver with room for three: all five calls in flight, then they succeed in the order 0, 2, 1, 3, 4. */
  function SharedKeyRun(ds: seq<string>, r: Resolution): seq<Event> {
    Starts(ds) + [Succeed(0, r, 0), Succeed(2, r, 0), Succeed(1, r, 0), Succeed(3, r, 0), Succeed(4, r, 0)]
  }

  /**
   The key of DIDs 0 and 1 is stored by call 0, then DID 2's, then the shared key again by call 1; yet at the
   next eviction the shared key goes and DID 2's, used longer ago, stays.
   */
  lemma StoringAgainDoesNotRefresh(ds: seq<string>, ttl: int, r: Resolution)
    requires TwoShareAKey(ds, ttl, 3.0) && IsCacheable(r)
    ensures var es := SharedKeyRun(ds, r);
      var shared, second, third, fourth := CacheKey(ds[0]), CacheKey(ds[2]), CacheKey(ds[3]), CacheKey(ds[4]);
      var s := Stored(ttl, r);
      && |es| == 10
      && After(ttl, 3.0, es, 6).cache == [Entry(shared, s)] && ds[1] in After(ttl, 3.0, es, 6).inflight
      && After(ttl, 3.0, es, 7).cache == [Entry(shared, s), Entry(second, s)]
      && After(ttl, 3.0, es, 8).cache == [Entry(shared, s), Entry(second, s)]
      && After(ttl, 3.0, es, 10).cache == [Entry(second, s), Entry(third, s), Entry(fourth, s)]
  {
    var es := SharedKeyRun(ds, r);
    KeysTellApart(ds, ttl);
    UsedMeansOn(ds[0], ttl, 3.0);
    FiveStores(ds, ttl, r);
    hide *;
    SharedKeyEvents(ds, r);
    AllWait(ds, ttl, es);
    StoredInOrder(ds, ttl, r, es);
  }

  function Store(cache: Cache, did: string, ttl: int, r: Resolution): Cache {
    Apply(cache, 3.0, Put(CacheKey(did), Stored(ttl, r), 0))
  }

  lemma FiveStores(ds: seq<string>, ttl: int, r: Resolution)
    requires TwoShareAKey(ds, ttl, 3.0) && ttl > 0
    ensures var a, b, c, d, s := CacheKey(ds[0]), CacheKey(ds[2]), CacheKey(ds[3]), CacheKey(ds[4]), Stored(ttl, r);
      && Store([], ds[0], ttl, r) == [Entry(a, s)]
      && Store([Entry(a, s)], ds[2], ttl, r) == [Entry(a, s), Entry(b, s)]
      && Store([Entry(a, s), Entry(b, s)], ds[1], ttl, r) == [Entry(a, s), Entry(b, s)]
      && Store([Entry(a, s), Entry(b, s)], ds[3], ttl, r) == [Entry(a, s), Entry(b, s), Entry(c, s)]
      && Store([Entry(a, s), Entry(b, s), Entry(c, s)], ds[4], ttl, r) == [Entry(b, s), Entry(c, s), Entry(d, s)]
  {
    KeysTellApart(ds, ttl);
    hide Apply, CacheKey, TwoShareAKey;
    StoresInTurn(CacheKey(ds[0]), CacheKey(ds[2]), CacheKey(ds[3]), CacheKey(ds[4]), Stored(ttl, r));
  }

  /** The five successes one after the other, once all calls wait. */
  lemma StoredInOrder(ds: seq<string>, ttl: int, r: Resolution, es: seq<Event>)
    requires |ds| == 5 && DistinctDids(ds) && IsCacheable(r) && |es| == 10
    requires es[5..] == [Succeed(0, r, 0), Succeed(2, r, 0), Succeed(1, r, 0), Succeed(3, r, 0), Succeed(4, r, 0)]
    requires Waiting(After(ttl, 3.0, es, 5), ds, ttl, [])
    ensures After(ttl, 3.0, es, 6).cache == Store(After(ttl, 3.0, es, 5).cache, ds[0], ttl, r) && ds[1] in After(ttl, 3.0, es, 6).inflight
    ensures After(ttl, 3.0, es, 7).cache == Store(After(ttl, 3.0, es, 6).cache, ds[2], ttl, r)
    ensures After(ttl, 3.0, es, 8).cache == Store(After(ttl, 3.0, es, 7).cache, ds[1], ttl, r)
    ensures After(ttl, 3.0, es, 9).cache == Store(After(ttl, 3.0, es, 8).cache, ds[3], ttl, r)
    ensures After(ttl, 3.0, es, 10).cache == Store(After(ttl, 3.0, es, 9).cache, ds[4], ttl, r)
  {
    hide *;
    var tail := es[5..];
    assert es[5] == tail[0] && es[6] == tail[1] && es[7] == tail[2] && es[8] == tail[3] && es[9] == tail[4];
    RunSettles(ds, ttl, es, 5, [], 0, r);
    StillInFlight(After(ttl, 3.0, es, 6), ds, ttl, [] + [0], 1);
    RunSettles(ds, ttl, es, 6, [] + [0], 2, r);
    RunSettles(ds, ttl, es, 7, [] + [0] + [2], 1, r);
    RunSettles(ds, ttl, es, 8, [] + [0] + [2] + [1], 3, r);
    RunSettles(ds, ttl, es, 9, [] + [0] + [2] + [1] + [3], 4, r);
  }

  lemma SharedKeyEvents(ds: seq<string>, r: Resolution)
    requires |ds| == 5
    ensures var es := SharedKeyRun(ds, r);
      && |es| == 10 && (forall i :: 0 <= i < 5 ==> es[i] == Resolve(ds[i], false, 0))
      && es[5..] == [Succeed(0, r, 0), Succeed(2, r, 0), Succeed(1, r, 0), Succeed(3, r, 0), Succeed(4, r, 0)]
  {
  }

  /** One call for each DID, in flight unless done. */
  ghost predicate Waiting(m: Memory, ds: seq<string>, ttl: int, done: seq<nat>) {
    && m.ttl == ttl && |m.calls| == |ds|
    && (forall i :: 0 <= i < |ds| ==> m.calls[i].did == ds[i] && m.calls[i].shared)
    && (forall i :: 0 <= i < |ds| && i !in done ==> m.calls[i].outcome.Pending? && ds[i] in m.inflight)
  }

  lemma AllWait(ds: seq<string>, ttl: int, es: seq<Event>)
    requires |ds| <= |es| && (forall i :: 0 <= i < |ds| ==> es[i] == Resolve(ds[i], false, 0) && UsesCache(ds[i], false, ttl, 3.0))
    requires DistinctDids(ds)
    ensures Waiting(After(ttl, 3.0, es, |ds|), ds, ttl, []) && After(ttl, 3.0, es, |ds|).cache == []
  {
    hide After, UsesCache;
    AllStart(ds, ttl, 3.0, es, |ds|);
    assert ds[..|ds|] == ds;
  }

  lemma RunSettles(ds: seq<string>, ttl: int, es: seq<Event>, n: nat, done: seq<nat>, c: nat, r: Resolution)
    requires n < |es| && es[n] == Succeed(c, r, 0) && Waiting(After(ttl, 3.0, es, n), ds, ttl, done)
    requires c < |ds| && c !in done && IsCacheable(r) && DistinctDids(ds)
    ensures Waiting(After(ttl, 3.0, es, n + 1), ds, ttl, done + [c])
    ensures After(ttl, 3.0, es, n + 1).cache == Store(After(ttl, 3.0, es, n).cache, ds[c], ttl, r)
  {
    hide Step, Apply, CacheKey, Waiting;
    SettleOne(After(ttl, 3.0, es, n), ds, ttl, done, c, r);
  }

  lemma StillInFlight(m: Memory, ds: seq<string>, ttl: int, done: seq<nat>, i: nat)
    requires Waiting(m, ds, ttl, done) && i < |ds| && i !in done
    ensures ds[i] in m.inflight
  {
  }

  lemma SettleOne(m: Memory, ds: seq<string>, ttl: int, done: seq<nat>, c: nat, r: Resolution)
    requires Waiting(m, ds, ttl, done) && c < |ds| && c !in done && IsCacheable(r)
    requires DistinctDids(ds)
    ensures var next := Step(m, 3.0, Succeed(c, r, 0));
      Waiting(next, ds, ttl, done + [c]) && next.cache == Apply(m.cache, 3.0, Put(CacheKey(ds[c]), Stored(ttl, r), 0))
  {
    SucceedStores(m, 3.0, c, r, 0);
    hide Step, Apply, CacheKey;
  }

  lemma UsedMeansOn(did: string, ttl: int, limit: real)
    requires UsesCache(did, false, ttl, limit)
    ensures ttl > 0
  {
  }

  lemma KeysTellApart(ds: seq<string>, ttl: int)
    requires TwoShareAKey(ds, ttl, 3.0)
    ensures |ds| == 5 && CacheKey(ds[0]) == CacheKey(ds[1]) && forall i :: 0 <= i < 5 ==> UsesCache(ds[i], false, ttl, 3.0)
    ensures CacheKey(ds[1]) != CacheKey(ds[2]) && CacheKey(ds[1]) != CacheKey(ds[3]) && CacheKey(ds[1]) != CacheKey(ds[4])
    ensures CacheKey(ds[2]) != CacheKey(ds[3]) && CacheKey(ds[2]) != CacheKey(ds[4]) && CacheKey(ds[3]) != CacheKey(ds[4])
    ensures DistinctDids(ds)
  {
    hide CacheKey, UsesCache;
  }

  /** Five stores into room for three, the third under the first's key. */
  lemma StoresInTurn(a: string, b: string, c: string, d: string, s: Stored)
    requires a != b && a != c && a != d && b != c && b != d && c != d && s.expires > 0
    ensures Apply([], 3.0, Put(a, s, 0)) == [Entry(a, s)]
    ensures Apply([Entry(a, s)], 3.0, Put(b, s, 0)) == [Entry(a, s), Entry(b, s)]
    ensures Apply([Entry(a, s), Entry(b, s)], 3.0, Put(a, s, 0)) == [Entry(a, s), Entry(b, s)]
    ensures Apply([Entry(a, s), Entry(b, s)], 3.0, Put(c, s, 0)) == [Entry(a, s), Entry(b, s), Entry(c, s)]
    ensures Apply([Entry(a, s), Entry(b, s), Entry(c, s)], 3.0, Put(d, s, 0)) == [Entry(b, s), Entry(c, s), Entry(d, s)]
  {
    hide FirstExpired, EvictFor;
    EvictsOne([], 3.0, 0);
    EvictsOne([Entry(a, s)], 3.0, 0);
    EvictsOne([Entry(a, s), Entry(b, s)], 3.0, 0);
    EvictsOne([Entry(a, s), Entry(b, s), Entry(c, s)], 3.0, 0);
  }

  // ----- switched off

  function Continue(m: Memory, limit: real, es: seq<Event>): Memory {
    if es == [] then m else Step(Continue(m, limit, es[..|es| - 1]), limit, es[|es| - 1])
  }

  /** No lifetime is set that would switch the cache on. */
  predicate StaysOff(es: seq<Event>) {
    forall e :: e in es && e.SetCacheTtl? ==> e.ms <= 0
  }

  lemma QuietStep(m: Memory, limit: real, e: Event)
    requires InflightIsPending(m) && m.ttl <= 0 && m.cache == [] && m.inflight == map[] && (e.SetCacheTtl? ==> e.ms <= 0)
    ensures var next := Step(m, limit, e);
      InflightIsPending(next) && next.ttl <= 0 && next.cache == [] && next.inflight == map[]
  {
    StepKeepsInflight(m, limit, e);
    hide ParseMethod, CacheKey, EvictFor;
  }

  lemma {:induction false} QuietStaysEmpty(m: Memory, limit: real, es: seq<Event>)
    requires InflightIsPending(m) && m.ttl <= 0 && m.cache == [] && m.inflight == map[] && StaysOff(es)
    ensures var next := Continue(m, limit, es);
      InflightIsPending(next) && next.ttl <= 0 && next.cache == [] && next.inflight == map[]
  {
    hide Step, InflightIsPending;
    if es != [] {
      QuietStaysEmpty(m, limit, es[..|es| - 1]);
      QuietStep(Continue(m, limit, es[..|es| - 1]), limit, es[|es| - 1]);
    }
  }

  /**
   `setCacheTtl(0)` empties the cache. It stays empty through every continuation that does not switch it
   on again exactly when nothing was in flight.
   */
  lemma OffStaysEmptyExactly(m: Memory, limit: real)
    requires limit > 0.0 && Inv(m, limit) && m.ttl <= 0 && m.cache == []
    ensures m.inflight == map[] <==> forall es | StaysOff(es) :: Continue(m, limit, es).cache == []
  {
    hide Step;
    if m.inflight == map[] {
      forall es | StaysOff(es) ensures Continue(m, limit, es).cache == [] { QuietStaysEmpty(m, limit, es); }
    } else {
      var d :| d in m.inflight;
      var c, r := m.inflight[d], Resolution(Some(""), None);
      SucceedStores(m, limit, c, r, 0);
      EvictsOne([], limit, 0);
      var es := [Succeed(c, r, 0)];
      assert es[..0] == [] && Continue(m, limit, []) == m;
      assert Continue(m, limit, es) == Step(m, limit, Succeed(c, r, 0));
      assert StaysOff(es) && Continue(m, limit, es).cache != [];
    }
  }

  /** A concrete run: switched off between the start of a call and its success, which stores. */
  lemma OffStillStores(did: string, limit: real, r: Resolution, at: int, now: int)
    requires UsesCache(did, false, 10, limit) && limit >= 1.0 && IsCacheable(r) && at <= now
    ensures var es := [Resolve(did, false, 0), SetCacheTtl(0), Succeed(0, r, at)];
      var m := After(10, limit, es, 3);
      m.ttl == 0 && m.cache == [Entry(CacheKey(did), Stored(at, r))] && Found(m.cache, CacheKey(did), now).None?
  {
    hide CacheKey, ParseMethod;
    var es := [Resolve(did, false, 0), SetCacheTtl(0), Succeed(0, r, at)];
    var key := CacheKey(did);
    assert After(10, limit, es, 1) == Memory([], map[did := 0], 10, [Call(did, false, true, Pending)]);
    assert After(10, limit, es, 2) == Memory([], map[did := 0], 0, [Call(did, false, true, Pending)]);
    EvictsOne([], limit, at);
    assert After(10, limit, es, 3).cache == [Entry(key, Stored(at, r))];
  }

  /** The clock has not gone back: every success so far was at `now` or before. */
  predicate NoLaterThan(es: seq<Event>, n: nat, now: int)
    requires n <= |es|
  {
    forall i :: 0 <= i < n && es[i].Succeed? ==> es[i].now <= now
  }

  lemma {:induction false} SettledInThePast(ttl: int, limit: real, es: seq<Event>, n: nat, now: int)
    requires n <= |es| && NoLaterThan(es, n, now)
    ensures forall c :: c in After(ttl, limit, es, n).calls && c.outcome.Settled? ==> c.outcome.at <= now
  {
    hide NextCache, UsesCache, Found, ParseMethod;
    if n > 0 {
      SettledInThePast(ttl, limit, es, n - 1, now);
      var m, e := After(ttl, limit, es, n - 1), es[n - 1];
      forall c | c in Step(m, limit, e).calls && c.outcome.Settled? ensures c.outcome.at <= now {
        if c !in m.calls { assert e.Succeed? && c.outcome.at == e.now; }
      }
    }
  }

  /** In every run with a clock that does not go back, what a call stored while the cache was off is never found. */
  lemma StoredOffIsNeverFound(ttl: int, limit: real, es: seq<Event>, n: nat, key: string, now: int, c: Call)
    requires limit > 0.0 && n <= |es| && NoLaterThan(es, n, now)
    requires c in After(ttl, limit, es, n).calls && c.outcome.Settled? && c.outcome.ttl <= 0
    requires Found(After(ttl, limit, es, n).cache, key, now).Some?
    ensures !Gave(c, key, Found(After(ttl, limit, es, n).cache, key, now).value)
  {
    SettledInThePast(ttl, limit, es, n, now);
    hide After, CacheKey, IndexOfKey;
  }

  // ----- the object

  class DidResolver {
    var cache: Cache
    var inflight: map<string, nat>
    var ttl: int
    var calls: seq<Call>
    const limit: real

    ghost function State(): Memory
      reads this
    {
      Memory(cache, inflight, ttl, calls)
    }

    constructor (ttl: int, limit: real)
      requires limit >= 0.0
      ensures State() == Start(ttl) && this.limit == limit
    {
      this.limit := limit;
      this.ttl := ttl;
      cache := [];
      inflight := map[];
      calls := [];
    }

    /** `createResolver`: a TypeError for a negative bound. */
    static method Create(ttl: int, limit: real) returns (resolver: Option<DidResolver>)
      ensures resolver.Some? <==> limit >= 0.0
      ensures resolver.Some? ==> fresh(resolver.value) && resolver.value.State() == Start(ttl) && resolver.value.limit == limit
    {
      if limit < 0.0 { return None; }
      var r := new DidResolver(ttl, limit);
      return Some(r);
    }

    method MakeRoomFor(now: int)
      modifies `cache
      ensures cache == EvictFor(old(cache), limit, now)
    {
      var i := 0;
      while i < |cache|
        invariant i <= |cache| && Sweep(cache, i, limit, now) == Sweep(old(cache), 0, limit, now)
        decreases |cache| - i
      {
        if |cache| as real < limit { return; }
        if cache[i].value.expires <= now {
          cache := DeleteAt(cache, i);
        } else {
          i := i + 1;
        }
      }
      while |cache| as real >= limit
        invariant Trim(cache, limit) == EvictFor(old(cache), limit, now)
        decreases |cache|
      {
        if cache == [] { return; }
        cache := cache[1..];
      }
    }

    method Store(key: string, result: Resolution, now: int)
      modifies `cache
      ensures cache == Apply(old(cache), limit, Put(key, Stored(now + ttl, result), now))
    {
      MakeRoomFor(now);
      cache := Set(cache, key, Stored(now + ttl, result));
    }

    method CallHandler(did: string, versionTime: bool, shared: bool) returns (call: nat)
      modifies `calls
      ensures call == |old(calls)| && calls == old(calls) + [Call(did, versionTime, shared, Pending)]
    {
      call := |calls|;
      calls := calls + [Call(did, versionTime, shared, Pending)];
    }

    method ResolveDid(did: string, versionTime: bool, now: int) returns (answer: Answer)
      modifies this
      ensures answer == Reply(old(State()), limit, did, versionTime, now)
      ensures State() == Step(old(State()), limit, Resolve(did, versionTime, now))
    {
      hide CacheKey, IndexOfKey, Delete;
      var name := ParseMethod(did);
      if name.None? { return Rejected; }
      if versionTime || ttl <= 0 || limit == 0.0 || name.value == "key" || name.value == "peer" {
        var call := CallHandler(did, versionTime, false);
        return Started(call);
      }
      var key := CacheKey(did);
      var hit := Get(cache, key);
      if hit.Some? {
        if hit.value.expires > now {
          cache := Delete(cache, key);
          cache := cache + [Entry(key, hit.value)];
          return Hit(hit.value.result);
        }
        cache := Delete(cache, key);
      }
      if did in inflight { return Joined(inflight[did]); }
      var call := CallHandler(did, false, true);
      inflight := inflight[did := call];
      return Started(call);
    }

    method Succeeded(call: nat, result: Resolution, now: int)
      requires IsPending(State(), call)
      modifies this
      ensures State() == Step(old(State()), limit, Succeed(call, result, now))
    {
      hide CacheKey, Apply;
      var c := calls[call];
      if c.shared {
        if IsCacheable(result) { Store(CacheKey(c.did), result, now); }
        inflight := inflight - {c.did};
      }
      calls := calls[call := c.(outcome := Settled(result, now, ttl))];
    }

    method FailedCall(call: nat)
      requires IsPending(State(), call)
      modifies this
      ensures State() == Step(old(State()), limit, Fail(call))
    {
      var c := calls[call];
      if c.shared { inflight := inflight - {c.did}; }
      calls := calls[call := c.(outcome := Failed)];
    }

    method Clear()
      modifies this
      ensures State() == Step(old(State()), limit, ClearCache)
    {
      cache := [];
    }

    method InvalidateDid(did: string)
      modifies this
      ensures State() == Step(old(State()), limit, Invalidate(did))
    {
      cache := Delete(cache, CacheKey(did));
    }

    method SetTtl(ms: int)
      modifies this
      ensures State() == Step(old(State()), limit, SetCacheTtl(ms))
    {
      ttl := ms;
      if ttl <= 0 { cache := []; }
    }
  }
}
