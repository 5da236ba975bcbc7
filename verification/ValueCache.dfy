/**
The two dictionary value caches: one keeps an entry per version and key, the
other one slot per key. Both count invalidations in a version.
*/
module ValueCache {
  import opened Options

  type Key = string
  type Value = string

  datatype Entry = Entry(value: Value, expiresAt: int)

  /** A stored value under the version its reader had loaded. */
  datatype Slot = Slot(value: Value, version: nat, expiresAt: int)

  datatype Name = Name(version: nat, key: Key)

  datatype Namespace = Namespace(version: nat, entries: map<Name, Entry>)

  datatype Memory = Memory(version: nat, slots: map<Key, Slot>)

  datatype Loaded = Loaded(hit: Option<Value>, version: nat)

  predicate Fresh(entry: Entry, now: int) {
    entry.expiresAt > now
  }

  function NamespaceLoad(cache: Namespace, key: Key, now: int): Loaded {
    var name := Name(cache.version, key);
    Loaded(if name in cache.entries &&
           Fresh(cache.entries[name], now) then Some(cache.entries[name].value) else None, cache.version)
  }

  function NamespaceStore(cache: Namespace, key: Key, value: Value, version: nat, ttl: int, now: int): Namespace {
    if ttl <= 0 then cache else cache.(entries := cache.entries[Name(version, key) := Entry(value, now + ttl)])
  }

  function NamespaceInvalidate(cache: Namespace): Namespace {
    cache.(version := cache.version + 1)
  }

  predicate Usable(cache: Memory, key: Key, now: int) {
    key in cache.slots && cache.slots[key].version == cache.version && cache.slots[key].expiresAt > now
  }

  function MemoryLoaded(cache: Memory, key: Key, now: int): Loaded {
    Loaded(if Usable(cache, key, now) then Some(cache.slots[key].value) else None, cache.version)
  }

  function MemoryAfterLoad(cache: Memory, key: Key, now: int): Memory {
    if Usable(cache, key, now) then cache else cache.(slots := cache.slots - {key})
  }

  function MemoryStore(cache: Memory, key: Key, value: Value, version: nat, ttl: int, now: int): Memory {
    if ttl <= 0 then cache else cache.(slots := cache.slots[key := Slot(value, version, now + ttl)])
  }

  function MemoryInvalidate(cache: Memory): Memory {
    Memory(cache.version + 1, map[])
  }

  class MemoryValueCache {
    var version: nat
    var values: map<Key, Slot>

    ghost function Contents(): Memory
      reads this
    {
      Memory(version, values)
    }

    constructor ()
      ensures Contents() == Memory(0, map[])
    {
      version := 0;
      values := map[];
    }

    method Load(key: Key, now: int) returns (value: Value, hit: bool, current: nat)
      modifies this
      ensures Loaded(if hit then Some(value) else None, current) == MemoryLoaded(old(Contents()), key, now)
      ensures Contents() == MemoryAfterLoad(old(Contents()), key, now)
    {
      current := version;
      if key !in values || values[key].version != version || !(values[key].expiresAt > now) {
        values := values - {key};
        return "", false, current;
      }
      return values[key].value, true, current;
    }

    method Store(key: Key, value: Value, loaded: nat, ttl: int, now: int) returns (ok: bool)
      modifies this
      ensures ok <==> ttl > 0
      ensures Contents() == MemoryStore(old(Contents()), key, value, loaded, ttl, now)
    {
      if ttl <= 0 { return false; }
      values := values[key := Slot(value, loaded, now + ttl)];
      ok := true;
    }

    method Invalidate()
      modifies this
      ensures Contents() == MemoryInvalidate(old(Contents()))
    {
      version := version + 1;
      values := map[];
    }
  }

  datatype Call = Load(key: Key) | Store(key: Key, value: Value, version: nat, ttl: int) | Invalidate

  /** One call with the clock reading it makes. */
  datatype Timed = Timed(call: Call, now: int)

  function NamespaceRun(cache: Namespace, calls: seq<Timed>): (Namespace, seq<Loaded>) {
    if calls == [] then (cache, [])
    else
      var (before, answers) := NamespaceRun(cache, calls[..|calls| - 1]);
      var Timed(call, now) := calls[|calls| - 1];
      match call
      case Load(key) => (before, answers + [NamespaceLoad(before, key, now)])
      case Store(key, value, version, ttl) => (NamespaceStore(before, key, value, version, ttl, now), answers)
      case Invalidate => (NamespaceInvalidate(before), answers)
  }

  function MemoryRun(cache: Memory, calls: seq<Timed>): (Memory, seq<Loaded>) {
    if calls == [] then (cache, [])
    else
      var (before, answers) := MemoryRun(cache, calls[..|calls| - 1]);
      var Timed(call, now) := calls[|calls| - 1];
      match call
      case Load(key) => (MemoryAfterLoad(before, key, now), answers + [MemoryLoaded(before, key, now)])
      case Store(key, value, version, ttl) => (MemoryStore(before, key, value, version, ttl, now), answers)
      case Invalidate => (MemoryInvalidate(before), answers)
  }

  /** Every slot is also an entry of the cache that keeps all versions. */
  ghost predicate Covers(namespace: Namespace, memory: Memory) {
    && namespace.version == memory.version
    && forall key :: key in memory.slots ==>
         && Name(memory.slots[key].version, key) in namespace.entries
         && namespace.entries[Name(memory.slots[key].version, key)] ==
               Entry(memory.slots[key].value, memory.slots[key].expiresAt)
  }

  /** The same version always, and a hit only where the other cache has the same hit. */
  predicate FewerHits(memory: Loaded, namespace: Loaded) {
    memory.version == namespace.version && (memory.hit.Some? ==> namespace.hit == memory.hit)
  }

  /** Over any calls, losing slots only turns hits into misses. */
  lemma {:induction false} OneSlotOnlyMissesMore(namespace: Namespace, memory: Memory, calls: seq<Timed>)
    requires Covers(namespace, memory)
    ensures var (all, full) := NamespaceRun(namespace, calls);
            var (one, answers) := MemoryRun(memory, calls);
            && Covers(all, one)
            && |answers| == |full|
            && forall i :: 0 <= i < |answers| ==> FewerHits(answers[i], full[i])
  {
    if calls != [] {
      OneSlotOnlyMissesMore(namespace, memory, calls[..|calls| - 1]);
    }
  }

  // What a hit means, told from the calls alone

  function Invalidations(calls: seq<Timed>): nat {
    if calls == [] then 0
    else Invalidations(calls[..|calls| - 1]) + if calls[|calls| - 1].call.Invalidate? then 1 else 0
  }

  predicate FillsKey(timed: Timed, key: Key) {
    timed.call.Store? && timed.call.key == key && timed.call.ttl > 0
  }

  predicate Stores(timed: Timed, key: Key, version: nat) {
    FillsKey(timed, key) && timed.call.version == version
  }

  /** The value of this store is still within its time to live. */
  predicate InTime(timed: Timed, now: int)
    requires timed.call.Store?
  {
    now < timed.now + timed.call.ttl
  }

  /** The i-th call stored the value under the version, in time for now, and no later call replaced it. */
  ghost predicate LastStore(calls: seq<Timed>, i: nat, key: Key, value: Value, version: nat, now: int) {
    && i < |calls|
    && Stores(calls[i], key, version) && calls[i].call.value == value && InTime(calls[i], now)
    && forall j :: i < j < |calls| ==> !Stores(calls[j], key, version)
  }

  ghost predicate EntryHits(cache: Namespace, key: Key, value: Value, version: nat, now: int) {
    && Name(version, key) in cache.entries
    && Fresh(cache.entries[Name(version, key)], now)
    && cache.entries[Name(version, key)].value == value
  }

  lemma LastStoreStays(calls: seq<Timed>, timed: Timed, key: Key, value: Value, version: nat, now: int)
    requires !Stores(timed, key, version)
    ensures (exists i: nat :: LastStore(calls + [timed], i, key, value, version, now)) <==>
            (exists i: nat :: LastStore(calls, i, key, value, version, now))
  {
    var more := calls + [timed];
    if i: nat :| LastStore(calls, i, key, value, version, now) {
      assert LastStore(more, i, key, value, version, now);
    }
    if i: nat :| LastStore(more, i, key, value, version, now) {
      assert more[|calls|] == timed;
      assert forall j :: i < j < |calls| ==> more[j] == calls[j];
      assert LastStore(calls, i, key, value, version, now);
    }
  }

  lemma NewStoreIsLast(calls: seq<Timed>, timed: Timed, key: Key, value: Value, version: nat, now: int)
    requires Stores(timed, key, version)
    ensures (exists i: nat :: LastStore(calls + [timed], i, key, value, version, now)) <==>
              timed.call.value == value && InTime(timed, now)
  {
    var more := calls + [timed];
    assert more[|calls|] == timed;
    if timed.call.value == value && InTime(timed, now) {
      assert LastStore(more, |calls|, key, value, version, now);
    }
  }

  lemma {:induction false} EntryHitsExactly(calls: seq<Timed>, key: Key, value: Value, version: nat, now: int)
    ensures var cache := NamespaceRun(Namespace(0, map[]), calls).0;
            && cache.version == Invalidations(calls)
            && (EntryHits(cache, key, value, version, now) <==>
                  exists i: nat :: LastStore(calls, i, key, value, version, now))
  {
    if calls != [] {
      hide LastStore;
      var before, timed := calls[..|calls| - 1], calls[|calls| - 1];
      assert before + [timed] == calls;
      EntryHitsExactly(before, key, value, version, now);
      if Stores(timed, key, version) {
        NewStoreIsLast(before, timed, key, value, version, now);
      } else {
        LastStoreStays(before, timed, key, value, version, now);
      }
    }
  }

  /**
  After any calls, a load answers with exactly the value last stored for its
  key under the number of invalidations so far, and only within its time to live.
  */
  lemma LoadAnswersTheLastStore(calls: seq<Timed>, key: Key, value: Value, now: int)
    ensures var answer := NamespaceLoad(NamespaceRun(Namespace(0, map[]), calls).0, key, now);
            && answer.version == Invalidations(calls)
            && (answer.hit == Some(value) <==>
                  exists i: nat :: LastStore(calls, i, key, value, Invalidations(calls), now))
  {
    EntryHitsExactly(calls, key, value, Invalidations(calls), now);
  }

  /** A hit of the one-slot cache is a value stored under the current version less than its time to live ago. */
  lemma OneSlotHitIsInTime(calls: seq<Timed>, key: Key, value: Value, now: int)
    requires MemoryLoaded(MemoryRun(Memory(0, map[]), calls).0, key, now).hit == Some(value)
    ensures exists i: nat :: LastStore(calls, i, key, value, Invalidations(calls), now)
  {
    OneSlotOnlyMissesMore(Namespace(0, map[]), Memory(0, map[]), calls);
    LoadAnswersTheLastStore(calls, key, value, now);
  }

  /**
  The i-th call filled the key's slot, and no later call emptied or refilled
  it: no store, no invalidation, and no load that found it stale or expired.
  */
  ghost predicate Fills(calls: seq<Timed>, i: nat, key: Key): (fills: bool)
    ensures fills ==> i < |calls| && calls[i].call.Store?
  {
    && i < |calls|
    && FillsKey(calls[i], key)
    && forall j :: i < j < |calls| ==> Leaves(calls, calls[i], calls[j], key)
  }

  ghost predicate Leaves(calls: seq<Timed>, filled: Timed, later: Timed, key: Key)
    requires filled.call.Store?
  {
    match later.call
    case Load(k) => k == key ==> filled.call.version == Invalidations(calls) && InTime(filled, later.now)
    case Store(_, _, _, _) => !FillsKey(later, key)
    case Invalidate => false
  }

  lemma FillStays(calls: seq<Timed>, timed: Timed, i: nat, key: Key)
    requires i < |calls| && calls[i].call.Store?
    requires !timed.call.Invalidate?
    ensures Fills(calls + [timed], i, key) <==> Fills(calls, i, key) && Leaves(calls, calls[i], timed, key)
  {
    var more := calls + [timed];
    assert more[..|more| - 1] == calls && more[|calls|] == timed;
    assert Invalidations(more) == Invalidations(calls);
    assert forall j :: i <= j < |calls| ==> more[j] == calls[j];
    assert forall later :: Leaves(more, calls[i], later, key) == Leaves(calls, calls[i], later, key);
    if Fills(calls, i, key) && Leaves(calls, calls[i], timed, key) {
      assert forall j :: i < j < |more| ==> more[j] == if j < |calls| then calls[j] else timed;
    }
  }

  function SlotOf(timed: Timed): Slot
    requires timed.call.Store?
  {
    Slot(timed.call.value, timed.call.version, timed.now + timed.call.ttl)
  }

  ghost predicate SlotFilled(calls: seq<Timed>, key: Key, cache: Memory) {
    && cache.version == Invalidations(calls)
    && (key in cache.slots ==> exists i: nat :: Fills(calls, i, key))
    && forall i: nat :: Fills(calls, i, key) ==> key in cache.slots && cache.slots[key] == SlotOf(calls[i])
  }

  /** The slot of a key is that of the call that filled it and has not been emptied. */
  lemma {:induction false} SlotsAreFilled(calls: seq<Timed>, key: Key)
    ensures SlotFilled(calls, key, MemoryRun(Memory(0, map[]), calls).0)
  {
    if calls != [] {
      var before, timed := calls[..|calls| - 1], calls[|calls| - 1];
      assert before + [timed] == calls;
      SlotsAreFilled(before, key);
      SlotAfterCall(before, timed, key, MemoryRun(Memory(0, map[]), before).0,
                    MemoryRun(Memory(0, map[]), calls).0);
    }
  }

  function MemoryAfter(cache: Memory, timed: Timed): Memory {
    match timed.call
    case Load(key) => MemoryAfterLoad(cache, key, timed.now)
    case Store(key, value, version, ttl) => MemoryStore(cache, key, value, version, ttl, timed.now)
    case Invalidate => MemoryInvalidate(cache)
  }

  lemma SlotAfterCall(calls: seq<Timed>, timed: Timed, key: Key, cache: Memory, after: Memory)
    requires SlotFilled(calls, key, cache) && after == MemoryAfter(cache, timed)
    ensures SlotFilled(calls + [timed], key, after)
  {
    hide Fills;
    var more := calls + [timed];
    assert more[..|calls|] == calls && more[|calls|] == timed;
    if timed.call.Invalidate? {
      forall i: nat ensures !Fills(more, i, key) { NoneFills(calls, timed, i, key); }
    } else if FillsKey(timed, key) {
      forall i: nat ensures Fills(more, i, key) <==> i == |calls| { OneFills(calls, timed, i, key); }
      assert Fills(more, |calls|, key);
    } else {
      forall i: nat
        ensures Fills(more, i, key) <==> Fills(calls, i, key) && Leaves(calls, calls[i], timed, key)
      {
        SameFills(calls, timed, i, key);
      }
      if key in after.slots {
        var i: nat :| Fills(calls, i, key);
        assert Fills(more, i, key);
      }
    }
  }

  lemma NoneFills(calls: seq<Timed>, timed: Timed, i: nat, key: Key)
    requires timed.call.Invalidate?
    ensures !Fills(calls + [timed], i, key)
  {
    assert (calls + [timed])[|calls|] == timed;
  }

  lemma OneFills(calls: seq<Timed>, timed: Timed, i: nat, key: Key)
    requires FillsKey(timed, key)
    ensures Fills(calls + [timed], i, key) <==> i == |calls|
  {
    assert (calls + [timed])[|calls|] == timed;
  }

  lemma SameFills(calls: seq<Timed>, timed: Timed, i: nat, key: Key)
    requires !timed.call.Invalidate? && !FillsKey(timed, key)
    ensures Fills(calls + [timed], i, key) <==> Fills(calls, i, key) && Leaves(calls, calls[i], timed, key)
  {
    var more := calls + [timed];
    assert more[|calls|] == timed;
    if i < |calls| && calls[i].call.Store? {
      FillStays(calls, timed, i, key);
    } else if i < |calls| {
      assert more[i] == calls[i];
    }
  }

  /**
  A load of the one-slot cache answers with a value exactly if the call that
  filled the slot stored it under the current version and in time for now.
  */
  lemma OneSlotHitsExactly(calls: seq<Timed>, key: Key, value: Value, now: int)
    ensures var answer := MemoryLoaded(MemoryRun(Memory(0, map[]), calls).0, key, now);
            && answer.version == Invalidations(calls)
            && (answer.hit == Some(value) <==>
                  exists i: nat :: Fills(calls, i, key) && calls[i].call.value == value &&
                              calls[i].call.version == Invalidations(calls) && InTime(calls[i], now))
  {
    hide Fills;
    SlotsAreFilled(calls, key);
  }
}
