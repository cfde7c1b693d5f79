/**
 The cache inside the resolver (src/resolver.js): a Map whose insertion order stands for recency,
 and the timestamp LRU with expiry that it refines.
 */
module LruCache {
  import opened Wrappers
  import opened OrderedMap

  datatype Resolution = Resolution(document: Option<string>, error: Option<string>)

  datatype Stored = Stored(expires: int, result: Resolution)

  type Cache = Map<Stored>

  datatype Op =
    | Lookup(key: string, now: int)
    | Put(key: string, stored: Stored, now: int)
    | Remove(key: string)
    | Clear

  // ----- the cache as it is kept

  /** The first pass of `evictFor`: drop expired entries from the front on while the cache is full. */
  function Sweep(cache: Cache, i: nat, limit: real, now: int): Cache
    requires i <= |cache|
    decreases |cache| - i
  {
    if i == |cache| || |cache| as real < limit then cache
    else if cache[i].value.expires <= now then Sweep(DeleteAt(cache, i), i, limit, now)
    else Sweep(cache, i + 1, limit, now)
  }

  function EvictFor(cache: Cache, limit: real, now: int): Cache {
    Trim(Sweep(cache, 0, limit, now), limit)
  }

  predicate IsLive(s: Stored, now: int) {
    s.expires > now
  }

  /** What a lookup finds. */
  function Found(cache: Cache, k: string, now: int): Option<Stored> {
    match Get(cache, k)
    case None => None
    case Some(s) => if IsLive(s, now) then Some(s) else None
  }

  function Apply(cache: Cache, limit: real, op: Op): Cache {
    match op
    case Lookup(k, now) =>
      (match Get(cache, k)
       case None => cache
       case Some(s) => if IsLive(s, now) then Delete(cache, k) + [Entry(k, s)] else Delete(cache, k))
    case Put(k, s, now) => Set(EvictFor(cache, limit, now), k, s)
    case Remove(k) => Delete(cache, k)
    case Clear => []
  }

  function After(limit: real, ops: seq<Op>, n: nat): Cache
    requires n <= |ops|
  {
    if n == 0 then [] else Apply(After(limit, ops, n - 1), limit, ops[n - 1])
  }

  // ----- bound and eviction

  ghost predicate Inv(cache: Cache, limit: real) {
    Distinct(cache) && |cache| as real < limit + 1.0
  }

  /** The first expired entry, or the front. */
  function Victim(cache: Cache, now: int): nat {
    var i := FirstExpired(cache, now);
    if i < |cache| then i else 0
  }

  function FirstExpired(cache: Cache, now: int): (i: nat)
    ensures i <= |cache|
    ensures i < |cache| ==> !IsLive(cache[i].value, now)
    ensures forall j :: 0 <= j < i ==> IsLive(cache[j].value, now)
  {
    if cache == [] || !IsLive(cache[0].value, now) then 0
    else
      var i := FirstExpired(cache[1..], now);
      assert forall j :: 1 <= j < i + 1 ==> cache[j] == cache[1..][j - 1];
      i + 1
  }

  lemma {:induction false} Swept(cache: Cache, i: nat, limit: real, now: int)
    requires i <= |cache| && |cache| as real < limit + 1.0 && |cache| as real >= limit
    requires forall j :: 0 <= j < i ==> IsLive(cache[j].value, now)
    ensures var e := FirstExpired(cache, now);
      Sweep(cache, i, limit, now) == if e < |cache| then DeleteAt(cache, e) else cache
    decreases |cache| - i
  {
    if i < |cache| {
      if !IsLive(cache[i].value, now) {
        assert FirstExpired(cache, now) == i;
        assert |DeleteAt(cache, i)| as real < limit;
      } else {
        Swept(cache, i + 1, limit, now);
      }
    }
  }

  /** A cache with room is left alone; a full one loses exactly one entry: the first expired, or the front. */
  lemma EvictsOne(cache: Cache, limit: real, now: int)
    requires limit > 0.0 && |cache| as real < limit + 1.0
    ensures |cache| as real < limit ==> EvictFor(cache, limit, now) == cache
    ensures |cache| as real >= limit ==> cache != [] && EvictFor(cache, limit, now) == DeleteAt(cache, Victim(cache, now))
    ensures |EvictFor(cache, limit, now)| as real < limit
  {
    hide FirstExpired;
    if |cache| as real >= limit {
      Swept(cache, 0, limit, now);
      var swept := Sweep(cache, 0, limit, now);
      Trimmed(swept, limit);
      if |swept| == |cache| { assert Trim(swept, limit) == swept[1..] == DeleteAt(cache, 0); }
    }
  }

  lemma EvictionKeepsDistinct(cache: Cache, limit: real, now: int)
    requires limit > 0.0 && Inv(cache, limit)
    ensures Distinct(EvictFor(cache, limit, now))
  {
    EvictsOne(cache, limit, now);
    hide EvictFor, FirstExpired;
  }

  lemma ApplyKeepsInv(cache: Cache, limit: real, op: Op)
    requires limit > 0.0 && Inv(cache, limit)
    ensures Inv(Apply(cache, limit, op), limit)
  {
    hide IndexOfKey, EvictFor, Victim;
    match op
    case Lookup(k, now) => DeleteKeepsDistinct(cache, k);
    case Put(k, s, now) =>
      EvictsOne(cache, limit, now);
      EvictionKeepsDistinct(cache, limit, now);
    case Remove(k) => DeleteKeepsDistinct(cache, k);
    case Clear =>
  }

  // ----- the timestamp LRU

  datatype Slot = Slot(stored: Stored, used: nat)

  /** Entries with the time of last use on a logical clock. */
  datatype Lru = Lru(slots: map<string, Slot>, clock: nat)

  ghost predicate IsLru(l: Lru) {
    forall k :: k in l.slots ==> l.slots[k].used < l.clock
  }

  /** Least recently used among the expired entries, or among all if none is. */
  ghost predicate IsVictim(l: Lru, now: int, v: string) {
    && v in l.slots
    && (IsLive(l.slots[v].stored, now) ==> forall k :: k in l.slots ==> IsLive(l.slots[k].stored, now))
    && forall k :: k in l.slots && (IsLive(l.slots[k].stored, now) ==> IsLive(l.slots[v].stored, now)) ==>
                     l.slots[v].used <= l.slots[k].used
  }

  ghost function Without(l: Lru, k: string): Lru {
    Lru(l.slots - {k}, l.clock)
  }

  ghost function With(l: Lru, k: string, s: Stored, time: nat): Lru {
    Lru(l.slots[k := Slot(s, time)], l.clock + 1)
  }

  ghost predicate Evicted(l: Lru, limit: real, now: int, room: Lru) {
    if |l.slots| as real < limit then room == l
    else exists v :: IsVictim(l, now, v) && room == Without(l, v)
  }

  /** One operation; `refresh` says that storing under a key already cached counts as a use of it. */
  ghost predicate LruStep(l: Lru, limit: real, op: Op, next: Lru, refresh: bool) {
    match op
    case Lookup(k, now) =>
      if k !in l.slots then next == l
      else if IsLive(l.slots[k].stored, now) then next == With(l, k, l.slots[k].stored, l.clock)
      else next == Without(l, k)
    case Put(k, s, now) =>
      exists room: Lru :: Evicted(l, limit, now, room)
        && next == With(room, k, s, if k in room.slots && !refresh then room.slots[k].used else room.clock)
    case Remove(k) => next == Without(l, k)
    case Clear => next == Lru(map[], l.clock)
  }

  // ----- refinement

  ghost predicate SameEntries(cache: Cache, slots: map<string, Slot>) {
    && (forall i :: 0 <= i < |cache| ==> cache[i].key in slots && slots[cache[i].key].stored == cache[i].value)
    && (forall k :: k in slots ==> Holds(cache, k))
  }

  ghost predicate InOrder(cache: Cache, slots: map<string, Slot>)
    requires SameEntries(cache, slots)
  {
    forall i, j :: 0 <= i < j < |cache| ==> slots[cache[i].key].used < slots[cache[j].key].used
  }

  /** The map's order is the order of last use. */
  ghost predicate Represents(cache: Cache, l: Lru) {
    IsLru(l) && Distinct(cache) && SameEntries(cache, l.slots) && InOrder(cache, l.slots)
  }

  lemma FoundAgrees(cache: Cache, l: Lru, k: string)
    requires Represents(cache, l)
    ensures Get(cache, k) == if k in l.slots then Some(l.slots[k].stored) else None
  {
    hide IndexOfKey;
  }

  lemma SizeAgrees(cache: Cache, slots: map<string, Slot>)
    requires Distinct(cache) && SameEntries(cache, slots)
    ensures |slots| == |cache|
  {
    hide IndexOfKey;
    assert slots.Keys == KeySet(cache) by {
      forall k | k in slots ensures k in KeySet(cache) { assert Holds(cache, k); }
    }
    KeyCount(cache);
    assert |slots.Keys| == |slots|;
  }

  ghost function KeySet(cache: Cache): set<string> {
    set i | 0 <= i < |cache| :: cache[i].key
  }

  lemma {:induction false} KeyCount(cache: Cache)
    requires Distinct(cache)
    ensures |KeySet(cache)| == |cache|
  {
    if cache != [] {
      KeyCount(cache[1..]);
      assert KeySet(cache) == {cache[0].key} + KeySet(cache[1..]) by {
        forall k | k in KeySet(cache) ensures k in {cache[0].key} + KeySet(cache[1..]) {
          var i :| 0 <= i < |cache| && cache[i].key == k;
          if i > 0 { assert cache[1..][i - 1] == cache[i]; }
        }
      }
    }
  }

  lemma DeleteAgrees(cache: Cache, l: Lru, k: string)
    requires Represents(cache, l)
    ensures Represents(Delete(cache, k), Without(l, k))
  {
    DeleteKeepsDistinct(cache, k);
    DeleteEntries(cache, l.slots, k);
    hide Delete, Distinct, SameEntries, InOrder;
  }

  lemma DeleteEntries(cache: Cache, slots: map<string, Slot>, k: string)
    requires Distinct(cache) && SameEntries(cache, slots) && InOrder(cache, slots)
    ensures SameEntries(Delete(cache, k), slots - {k}) && InOrder(Delete(cache, k), slots - {k})
  {
    var at := DeleteShape(cache, k);
    var rest, left := Delete(cache, k), slots - {k};
    forall x | x in left ensures Holds(rest, x) {
      assert Holds(cache, x);
      DeleteHolds(cache, k, x);
    }
    hide Delete, Distinct, Holds;
    SubEntries(cache, slots, rest, left, at);
  }

  /** Picking entries in order keeps them and their order. */
  lemma SubEntries(cache: Cache, slots: map<string, Slot>, rest: Cache, left: map<string, Slot>, at: seq<nat>)
    requires SameEntries(cache, slots) && InOrder(cache, slots) && |at| == |rest|
    requires forall j :: 0 <= j < |at| ==> at[j] < |cache| && rest[j] == cache[at[j]]
    requires forall i, j :: 0 <= i < j < |at| ==> at[i] < at[j]
    requires forall j :: 0 <= j < |rest| ==> rest[j].key in left && left[rest[j].key] == slots[rest[j].key]
    requires forall x :: x in left ==> Holds(rest, x)
    ensures SameEntries(rest, left) && InOrder(rest, left)
  {
    hide Holds;
    forall i | 0 <= i < |rest| ensures left[rest[i].key].stored == rest[i].value {
      assert rest[i] == cache[at[i]];
    }
    forall i, j | 0 <= i < j < |rest| ensures left[rest[i].key].used < left[rest[j].key].used {
      assert at[i] < at[j] && rest[i] == cache[at[i]] && rest[j] == cache[at[j]];
    }
  }

  /** Where the entries left by a deletion came from. */
  lemma DeleteShape(cache: Cache, k: string) returns (at: seq<nat>)
    requires Distinct(cache)
    ensures |at| == |Delete(cache, k)|
    ensures forall j :: 0 <= j < |at| ==> at[j] < |cache| && Delete(cache, k)[j] == cache[at[j]] && cache[at[j]].key != k
    ensures forall i, j :: 0 <= i < j < |at| ==> at[i] < at[j]
  {
    hide IndexOfKey;
    var i := IndexOfKey(cache, k);
    var rest := Delete(cache, k);
    at := seq(|rest|, j requires 0 <= j => if j < i then j else j + 1);
    forall j | 0 <= j < |at| ensures at[j] < |cache| && rest[j] == cache[at[j]] && at[j] != i {
    }
    hide Delete;
  }

  lemma DeleteHolds(cache: Cache, k: string, x: string)
    requires Holds(cache, x) && x != k
    ensures Holds(Delete(cache, k), x)
  {
    hide IndexOfKey;
    var i, j, rest := IndexOfKey(cache, k), IndexOfKey(cache, x), Delete(cache, k);
    var at := if j < i then j else j - 1;
    assert i < |cache| ==> rest[at] == cache[j];
    HoldsAt(rest, if i < |cache| then at else j, x);
  }

  lemma AppendAgrees(cache: Cache, l: Lru, k: string, s: Stored)
    requires Represents(cache, l) && k !in l.slots
    ensures Represents(cache + [Entry(k, s)], With(l, k, s, l.clock))
  {
    AppendEntries(cache, l.slots, k, Slot(s, l.clock));
    AppendOrder(cache, l.slots, k, Slot(s, l.clock));
    hide Distinct, SameEntries, InOrder;
  }

  lemma AppendEntries(cache: Cache, slots: map<string, Slot>, k: string, slot: Slot)
    requires SameEntries(cache, slots) && k !in slots
    ensures SameEntries(cache + [Entry(k, slot.stored)], slots[k := slot])
  {
    hide IndexOfKey;
    var longer, more := cache + [Entry(k, slot.stored)], slots[k := slot];
    forall x | x in more ensures Holds(longer, x) {
      if x == k {
        HoldsAt(longer, |cache|, x);
      } else {
        assert Holds(cache, x);
        HoldsAt(longer, IndexOfKey(cache, x), x);
      }
    }
    hide Holds;
    forall i | 0 <= i < |longer| ensures longer[i].key in more && more[longer[i].key].stored == longer[i].value {
      if i < |cache| { assert longer[i] == cache[i]; }
    }
  }

  lemma AppendOrder(cache: Cache, slots: map<string, Slot>, k: string, slot: Slot)
    requires SameEntries(cache, slots) && InOrder(cache, slots) && Distinct(cache) && k !in slots
    requires SameEntries(cache + [Entry(k, slot.stored)], slots[k := slot])
    requires forall x :: x in slots ==> slots[x].used < slot.used
    ensures InOrder(cache + [Entry(k, slot.stored)], slots[k := slot]) && Distinct(cache + [Entry(k, slot.stored)])
  {
    hide Holds;
    var longer := cache + [Entry(k, slot.stored)];
    forall i, j | 0 <= i < j < |longer|
      ensures longer[i].key != longer[j].key && slots[k := slot][longer[i].key].used < slots[k := slot][longer[j].key].used
    {
      assert longer[i] == cache[i];
      if j < |cache| { assert longer[j] == cache[j]; } else { assert longer[j].key == k; }
    }
  }

  /** Replacing a value in place keeps both the order and the time of use. */
  lemma ReplaceAgrees(cache: Cache, l: Lru, k: string, s: Stored)
    requires Represents(cache, l) && k in l.slots
    ensures Represents(Set(cache, k, s), With(l, k, s, l.slots[k].used))
  {
    SetKeys(cache, k, s);
    ReplaceEntries(cache, l.slots, k, s);
    hide Distinct, SameEntries, InOrder, Set;
  }

  lemma SetKeys(cache: Cache, k: string, s: Stored)
    requires Distinct(cache) && Holds(cache, k)
    ensures var c := Set(cache, k, s);
      && Distinct(c) && |c| == |cache|
      && forall j :: 0 <= j < |c| ==> c[j] == Entry(cache[j].key, if cache[j].key == k then s else cache[j].value)
  {
    hide IndexOfKey;
  }

  lemma ReplaceEntries(cache: Cache, slots: map<string, Slot>, k: string, s: Stored)
    requires Distinct(cache) && SameEntries(cache, slots) && InOrder(cache, slots) && k in slots
    ensures var more := slots[k := Slot(s, slots[k].used)];
      SameEntries(Set(cache, k, s), more) && InOrder(Set(cache, k, s), more)
  {
    assert Holds(cache, k);
    SetKeys(cache, k, s);
    var c := Set(cache, k, s);
    forall x | x in slots ensures Holds(c, x) {
      assert Holds(cache, x);
      HoldsAt(c, IndexOfKey(cache, x), x);
    }
    hide Holds, Set, Distinct;
  }

  /**
   Counting a store as a use agrees with the order of the map exactly when the key
   was not there, or was already last.
   */
  lemma SetRefreshesExactly(cache: Cache, l: Lru, k: string, s: Stored)
    requires Represents(cache, l)
    ensures Represents(Set(cache, k, s), With(l, k, s, l.clock)) <==> IndexOfKey(cache, k) >= |cache| - 1
  {
    hide IndexOfKey;
    FoundAgrees(cache, l, k);
    if k !in l.slots {
      AppendAgrees(cache, l, k, s);
    } else {
      SetKeys(cache, k, s);
      RestampedEntries(cache, l.slots, k, Slot(s, l.clock));
      RestampedOrder(cache, l, k, s);
      hide SameEntries, InOrder, Set;
    }
  }

  lemma RestampedEntries(cache: Cache, slots: map<string, Slot>, k: string, slot: Slot)
    requires Distinct(cache) && SameEntries(cache, slots) && k in slots
    ensures SameEntries(Set(cache, k, slot.stored), slots[k := slot])
  {
    assert Holds(cache, k);
    SetKeys(cache, k, slot.stored);
    var c := Set(cache, k, slot.stored);
    forall x | x in slots ensures Holds(c, x) {
      assert Holds(cache, x);
      HoldsAt(c, IndexOfKey(cache, x), x);
    }
    hide Holds, Set, Distinct;
  }

  lemma RestampedOrder(cache: Cache, l: Lru, k: string, s: Stored)
    requires Represents(cache, l) && k in l.slots
    requires SameEntries(Set(cache, k, s), l.slots[k := Slot(s, l.clock)])
    ensures InOrder(Set(cache, k, s), l.slots[k := Slot(s, l.clock)]) <==> IndexOfKey(cache, k) >= |cache| - 1
  {
    hide IndexOfKey, Holds, Set, Represents, IsLru, Distinct, SameEntries;
    StampsRise(cache, l);
    RestampedUse(cache, l, k, s, 0);
    var c, more, at := Set(cache, k, s), l.slots[k := Slot(s, l.clock)], IndexOfKey(cache, k);
    var us := seq(|cache|, i requires 0 <= i < |cache| && cache[i].key in l.slots => l.slots[cache[i].key].used);
    forall i | 0 <= i < |cache| ensures c[i].key in more && more[c[i].key].used == us[at := l.clock][i] {
      RestampedUse(cache, l, k, s, i);
    }
    LatestLast(us, at, l.clock);
    UsesInOrder(c, more, us[at := l.clock]);
  }

  lemma UsesInOrder(cache: Cache, slots: map<string, Slot>, us: seq<nat>)
    requires SameEntries(cache, slots) && |us| == |cache|
    requires forall i :: 0 <= i < |cache| ==> cache[i].key in slots && slots[cache[i].key].used == us[i]
    ensures InOrder(cache, slots) <==> Rising(us)
  {
    hide SameEntries;
    if InOrder(cache, slots) {
      forall i, j | 0 <= i < j < |us| ensures us[i] < us[j] {
        assert slots[cache[i].key].used < slots[cache[j].key].used;
      }
    }
  }

  ghost predicate Rising(us: seq<nat>) {
    forall i, j :: 0 <= i < j < |us| ==> us[i] < us[j]
  }

  lemma LatestLast(us: seq<nat>, at: nat, clock: nat)
    requires Rising(us) && at < |us| && forall i :: 0 <= i < |us| ==> us[i] < clock
    ensures Rising(us[at := clock]) <==> at == |us| - 1
  {
    var vs := us[at := clock];
    if at < |us| - 1 { assert vs[|us| - 1] < clock == vs[at]; }
  }

  lemma RestampedUse(cache: Cache, l: Lru, k: string, s: Stored, i: nat)
    requires Represents(cache, l) && k in l.slots
    requires SameEntries(Set(cache, k, s), l.slots[k := Slot(s, l.clock)])
    ensures var c, more, at := Set(cache, k, s), l.slots[k := Slot(s, l.clock)], IndexOfKey(cache, k);
      && |c| == |cache| && at < |c|
      && (i < |c| ==> c[i].key in more && more[c[i].key].used == if i == at then l.clock else l.slots[cache[i].key].used)
  {
    assert Holds(cache, k);
    SetKeys(cache, k, s);
    hide IndexOfKey, Set, IsLru, InOrder;
  }

  lemma StampsRise(cache: Cache, l: Lru)
    requires Represents(cache, l)
    ensures forall i :: 0 <= i < |cache| ==> cache[i].key in l.slots && l.slots[cache[i].key].used < l.clock
    ensures forall i, j :: 0 <= i < j < |cache| ==> l.slots[cache[i].key].used < l.slots[cache[j].key].used
  {
    hide Holds;
  }

  /** The evicted entry is the victim of the timestamp LRU. */
  lemma EvictionAgrees(cache: Cache, l: Lru, limit: real, now: int) returns (room: Lru)
    requires Represents(cache, l) && limit > 0.0 && |cache| as real < limit + 1.0
    ensures Evicted(l, limit, now, room) && Represents(EvictFor(cache, limit, now), room) && room.clock == l.clock
  {
    EvictsOne(cache, limit, now);
    SizeAgrees(cache, l.slots);
    if |cache| as real < limit {
      room := l;
    } else {
      hide EvictFor, IndexOfKey;
      var v := Victim(cache, now);
      var k := cache[v].key;
      VictimAgrees(cache, l, now);
      IndexIs(cache, v);
      DeleteAgrees(cache, l, k);
      room := Without(l, k);
    }
  }

  lemma VictimAgrees(cache: Cache, l: Lru, now: int)
    requires Represents(cache, l) && cache != []
    ensures IsVictim(l, now, cache[Victim(cache, now)].key)
  {
    hide IndexOfKey, FirstExpired;
    var v := cache[Victim(cache, now)].key;
    forall k | k in l.slots
      ensures IsLive(l.slots[v].stored, now) ==> IsLive(l.slots[k].stored, now)
      ensures (IsLive(l.slots[k].stored, now) ==> IsLive(l.slots[v].stored, now)) ==> l.slots[v].used <= l.slots[k].used
    {
      assert Holds(cache, k);
      var i := IndexOfKey(cache, k);
      assert l.slots[k].stored == cache[i].value;
    }
  }

  /** Stamps are distinct, so there is one victim. */
  lemma VictimIsUnique(cache: Cache, l: Lru, now: int, v: string, v': string)
    requires Represents(cache, l) && IsVictim(l, now, v) && IsVictim(l, now, v')
    ensures v == v'
  {
    hide IndexOfKey;
    assert Holds(cache, v) && Holds(cache, v');
    var i, j := IndexOfKey(cache, v), IndexOfKey(cache, v');
    assert l.slots[v].used == l.slots[v'].used;
    StampsRise(cache, l);
  }

  /** After making room the key is not cached, or is the most recently used. */
  predicate Refreshes(cache: Cache, limit: real, now: int, k: string) {
    var room := EvictFor(cache, limit, now);
    IndexOfKey(room, k) >= |room| - 1
  }

  /** One operation on the map is one step of the timestamp LRU. */
  lemma StepRefines(cache: Cache, l: Lru, limit: real, op: Op, refresh: bool) returns (next: Lru)
    requires limit > 0.0 && Represents(cache, l) && Inv(cache, limit)
    requires refresh && op.Put? ==> Refreshes(cache, limit, op.now, op.key)
    ensures LruStep(l, limit, op, next, refresh) && Represents(Apply(cache, limit, op), next)
  {
    hide IndexOfKey, EvictFor, Represents, Delete, Refreshes;
    match op
    case Lookup(k, now) =>
      FoundAgrees(cache, l, k);
      if k !in l.slots {
        next := l;
      } else {
        DeleteAgrees(cache, l, k);
        next := Without(l, k);
        if IsLive(l.slots[k].stored, now) {
          AppendAgrees(Delete(cache, k), next, k, l.slots[k].stored);
          next := With(next, k, l.slots[k].stored, l.clock);
          assert next == With(l, k, l.slots[k].stored, l.clock) by { WithoutWith(l, k, l.slots[k].stored); }
        }
      }
    case Put(k, s, now) =>
      next := PutRefines(cache, l, limit, k, s, now, refresh);
    case Remove(k) =>
      DeleteAgrees(cache, l, k);
      next := Without(l, k);
    case Clear =>
      next := Lru(map[], l.clock);
      assert Represents([], next) by { EmptyAgrees(limit, l.clock); }
  }

  lemma EmptyAgrees(limit: real, clock: nat)
    requires limit > 0.0
    ensures Represents([], Lru(map[], clock)) && Inv([], limit)
  {
  }

  lemma WithoutWith(l: Lru, k: string, s: Stored)
    ensures With(Without(l, k), k, s, l.clock) == With(l, k, s, l.clock)
  {
    assert (l.slots - {k})[k := Slot(s, l.clock)] == l.slots[k := Slot(s, l.clock)];
  }

  lemma PutRefines(cache: Cache, l: Lru, limit: real, k: string, s: Stored, now: int, refresh: bool) returns (next: Lru)
    requires limit > 0.0 && Represents(cache, l) && Inv(cache, limit)
    requires refresh ==> Refreshes(cache, limit, now, k)
    ensures LruStep(l, limit, Put(k, s, now), next, refresh)
    ensures Represents(Set(EvictFor(cache, limit, now), k, s), next)
  {
    hide EvictFor, IndexOfKey, Represents, Set;
    var room := EvictionAgrees(cache, l, limit, now);
    var kept := EvictFor(cache, limit, now);
    FoundAgrees(kept, room, k);
    if k in room.slots && !refresh {
      ReplaceAgrees(kept, room, k, s);
      next := With(room, k, s, room.slots[k].used);
    } else {
      SetRefreshesExactly(kept, room, k, s);
      assert Holds(kept, k) ==> refresh;
      next := With(room, k, s, room.clock);
    }
  }

  /** A store that is a step counting it as a use refreshes. */
  lemma PureStepRefreshes(cache: Cache, l: Lru, limit: real, op: Op, next: Lru)
    requires limit > 0.0 && Represents(cache, l) && Inv(cache, limit) && op.Put?
    requires LruStep(l, limit, op, next, true) && Represents(Apply(cache, limit, op), next)
    ensures Refreshes(cache, limit, op.now, op.key)
  {
    var room := EvictionAgrees(cache, l, limit, op.now);
    var other :| Evicted(l, limit, op.now, other) && next == With(other, op.key, op.stored, other.clock);
    if |l.slots| as real >= limit {
      var v :| IsVictim(l, op.now, v) && room == Without(l, v);
      var v' :| IsVictim(l, op.now, v') && other == Without(l, v');
      VictimIsUnique(cache, l, op.now, v, v');
    }
    hide EvictFor, Represents, Set, IndexOfKey;
    SetRefreshesExactly(EvictFor(cache, limit, op.now), room, op.key, op.stored);
  }

  /** The timestamp LRU through the first n operations. */
  ghost predicate IsRun(limit: real, ops: seq<Op>, n: nat, ls: seq<Lru>, refresh: bool)
    requires n <= |ops|
  {
    && |ls| == n + 1 && ls[0] == Lru(map[], 0)
    && forall i :: 0 <= i < n ==> LruStep(ls[i], limit, ops[i], ls[i + 1], refresh)
  }

  ghost predicate AllRepresented(limit: real, ops: seq<Op>, n: nat, ls: seq<Lru>)
    requires n <= |ops| && |ls| == n + 1
  {
    forall i :: 0 <= i <= n ==> Represents(After(limit, ops, i), ls[i]) && Inv(After(limit, ops, i), limit)
  }

  /** Every store refreshes. */
  ghost predicate RefreshingPuts(limit: real, ops: seq<Op>, n: nat)
    requires n <= |ops|
  {
    forall i :: 0 <= i < n && ops[i].Put? ==> Refreshes(After(limit, ops, i), limit, ops[i].now, ops[i].key)
  }

  lemma EvictionAddsNothing(cache: Cache, limit: real, now: int, k: string)
    requires limit > 0.0 && Inv(cache, limit) && !Holds(cache, k)
    ensures !Holds(EvictFor(cache, limit, now), k)
  {
    EvictsOne(cache, limit, now);
    hide EvictFor, IndexOfKey;
    var room := EvictFor(cache, limit, now);
    assert forall x :: x in room ==> x in cache;
  }

  /** Every run of the cache is a run of the timestamp LRU, state by state, and stays within the limit. */
  lemma {:induction false} RunRefines(limit: real, ops: seq<Op>, n: nat, refresh: bool) returns (ls: seq<Lru>)
    requires limit > 0.0 && n <= |ops| && (refresh ==> RefreshingPuts(limit, ops, n))
    ensures IsRun(limit, ops, n, ls, refresh) && AllRepresented(limit, ops, n, ls)
  {
    hide Apply, LruStep, Represents, Inv, Refreshes;
    if n == 0 {
      EmptyAgrees(limit, 0);
      ls := [Lru(map[], 0)];
    } else {
      var m := n - 1;
      var init := RunRefines(limit, ops, m, refresh);
      var cache := After(limit, ops, m);
      assert Represents(cache, init[m]) && Inv(cache, limit);
      var next := StepRefines(cache, init[m], limit, ops[m], refresh);
      ApplyKeepsInv(cache, limit, ops[m]);
      assert After(limit, ops, n) == Apply(cache, limit, ops[m]);
      hide After;
      ls := init + [next];
      forall i | 0 <= i < n ensures LruStep(ls[i], limit, ops[i], ls[i + 1], refresh) {
        assert ls[i] == init[i];
      }
      forall i | 0 <= i <= n ensures Represents(After(limit, ops, i), ls[i]) && Inv(After(limit, ops, i), limit) {
        if i < n { assert ls[i] == init[i]; }
      }
    }
  }

  /** Nothing is stored under a key that is cached at the time. */
  ghost predicate FreshPuts(limit: real, ops: seq<Op>, n: nat)
    requires n <= |ops|
  {
    forall i :: 0 <= i < n && ops[i].Put? ==> !Holds(After(limit, ops, i), ops[i].key)
  }

  lemma FreshPutsRefresh(limit: real, ops: seq<Op>, n: nat)
    requires limit > 0.0 && n <= |ops| && FreshPuts(limit, ops, n)
    ensures RefreshingPuts(limit, ops, n)
  {
    hide LruStep, Represents, Inv, Apply, EvictFor, IndexOfKey;
    var ls := RunRefines(limit, ops, n, false);
    forall i | 0 <= i < n && ops[i].Put? ensures Refreshes(After(limit, ops, i), limit, ops[i].now, ops[i].key) {
      assert Inv(After(limit, ops, i), limit);
      EvictionAddsNothing(After(limit, ops, i), limit, ops[i].now, ops[i].key);
    }
  }

  /** A run of the cache is a run of the timestamp LRU that counts stores as uses exactly when every store refreshes. */
  lemma RunIsPureExactly(limit: real, ops: seq<Op>, n: nat)
    requires limit > 0.0 && n <= |ops|
    ensures (exists ls :: IsRun(limit, ops, n, ls, true) && AllRepresented(limit, ops, n, ls)) <==> RefreshingPuts(limit, ops, n)
  {
    hide LruStep, Represents, Inv, Refreshes, Apply;
    if RefreshingPuts(limit, ops, n) {
      var ls := RunRefines(limit, ops, n, true);
    }
    forall ls | IsRun(limit, ops, n, ls, true) && AllRepresented(limit, ops, n, ls) ensures RefreshingPuts(limit, ops, n) {
      forall i | 0 <= i < n && ops[i].Put? ensures Refreshes(After(limit, ops, i), limit, ops[i].now, ops[i].key) {
        assert After(limit, ops, i + 1) == Apply(After(limit, ops, i), limit, ops[i]);
        assert Represents(After(limit, ops, i), ls[i]) && Represents(After(limit, ops, i + 1), ls[i + 1]);
        assert LruStep(ls[i], limit, ops[i], ls[i + 1], true);
        PureStepRefreshes(After(limit, ops, i), ls[i], limit, ops[i], ls[i + 1]);
      }
    }
  }

  lemma {:induction false} AfterPrefix(limit: real, ops: seq<Op>, more: seq<Op>, n: nat)
    requires n <= |ops|
    ensures After(limit, ops + more, n) == After(limit, ops, n)
  {
    hide Apply;
    if n > 0 { AfterPrefix(limit, ops, more, n - 1); }
  }
}
