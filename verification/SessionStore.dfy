/**
The refresh-session store: an in-memory map with absolute deadlines, and the
Redis scripts that implement the same compare-and-set.

Clock readings are nanoseconds, deadlines are the whole milliseconds a record
carries, scaled to nanoseconds.  What a caller can observe of a store at an
instant is Visible: the entries whose deadline lies strictly ahead.
*/
module SessionStore {

  datatype Stored<V> = Stored(value: V, expiredAt: nat)

  datatype Outcome =
    | Done
    | NotUpdated
    | Cancelled
    | Closed
    | NotFound
    | Conflict
    | CapacityReached

  type Entries<V> = map<string, Stored<V>>

  const NANOS_PER_MILLI: nat := 1_000_000

  function Milli(nanos: nat): nat {
    nanos / NANOS_PER_MILLI
  }

  /** A whole-millisecond deadline is ahead of a nanosecond clock exactly when it is ahead of its milliseconds. */
  lemma DeadlineInMillis(deadline: nat, now: nat)
    ensures deadline * NANOS_PER_MILLI > now <==> deadline > Milli(now)
  {
    if deadline > Milli(now) {
      assert deadline * NANOS_PER_MILLI >= (Milli(now) + 1) * NANOS_PER_MILLI;
    }
  }

  lemma MilliMonotone(earlier: nat, later: nat)
    requires earlier <= later
    ensures Milli(earlier) <= Milli(later)
  {}

  function Visible<V>(entries: Entries<V>, now: nat): Entries<V> {
    map id | id in entries && entries[id].expiredAt > now :: entries[id]
  }

  // ----- One specification function per atomic operation -----

  function CreateEntry<V>(entries: Entries<V>, capacity: nat, id: string, value: V, expiredAt: nat, now: nat)
    : (Outcome, Entries<V>)
  {
    if expiredAt <= now then (NotFound, entries)
    else if id in entries && entries[id].expiredAt > now then (Conflict, entries)
    else
      var others := entries - {id};
      var room := if |others| >= capacity then Visible(others, now) else others;
      if |room| >= capacity then (CapacityReached, room)
      else (Done, room[id := Stored(value, expiredAt)])
  }

  datatype Lookup<V> = Hit(value: V) | Miss

  function GetEntry<V>(entries: Entries<V>, id: string, now: nat): (Lookup<V>, Entries<V>) {
    if id in entries && entries[id].expiredAt > now then (Hit(entries[id].value), entries)
    else (Miss, entries - {id})
  }

  function RotateEntry<V(==)>(entries: Entries<V>, id: string, expected: V, value: V, expiredAt: nat, now: nat)
    : (bool, Entries<V>)
  {
    if id !in entries || entries[id].expiredAt <= now then (false, entries - {id})
    else if entries[id].value != expected || expiredAt <= now then (false, entries)
    else (true, entries[id := Stored(value, expiredAt)])
  }

  function DeleteEntry<V>(entries: Entries<V>, id: string): Entries<V> {
    entries - {id}
  }

  // ----- What the operations mean for an observer -----

  /** Create succeeds exactly on an identifier nobody can see, with a deadline ahead and room left, and shows
      the new entry without hiding another. */
  lemma CreateShowsEntry<V>(entries: Entries<V>, capacity: nat, id: string, value: V, expiredAt: nat, now: nat,
                            later: nat)
    requires now <= later && CreateEntry(entries, capacity, id, value, expiredAt, now).0 == Done
    ensures id !in Visible(entries, now) && now < expiredAt
    ensures var after := CreateEntry(entries, capacity, id, value, expiredAt, now).1;
            && id in after && after[id] == Stored(value, expiredAt)
            && Visible(after - {id}, later) == Visible(entries - {id}, later)
  {
    var others := entries - {id};
    VisibleTwice(others, now, later);
    var room := if |others| >= capacity then Visible(others, now) else others;
    PutThenRemove(room, id, Stored(value, expiredAt));
  }

  lemma PutThenRemove<V>(entries: Entries<V>, id: string, entry: Stored<V>)
    requires id !in entries
    ensures entries[id := entry] - {id} == entries
  {}

  /** The outcome of Create in terms of what is visible: a deadline ahead, a free identifier, and room. */
  lemma CreateDecides<V>(entries: Entries<V>, capacity: nat, id: string, value: V, expiredAt: nat, now: nat)
    ensures CreateEntry(entries, capacity, id, value, expiredAt, now).0
         == if expiredAt <= now then NotFound
            else if id in Visible(entries, now) then Conflict
            else if |Visible(entries, now)| >= capacity then CapacityReached
            else Done
  {
    hide Visible;
    IsVisible(entries, id, now);
    FewerVisible(entries - {id}, now);
    if id !in Visible(entries, now) {
      OthersVisible(entries, id, now);
    }
  }

  lemma IsVisible<V>(entries: Entries<V>, id: string, now: nat)
    ensures id in Visible(entries, now) <==> id in entries && entries[id].expiredAt > now
  {
  }

  lemma OthersVisible<V>(entries: Entries<V>, id: string, now: nat)
    requires id !in Visible(entries, now)
    ensures Visible(entries - {id}, now) == Visible(entries, now)
  {
  }

  lemma FewerVisible<V>(entries: Entries<V>, now: nat)
    ensures |Visible(entries, now)| <= |entries|
  {
    SubsetCounts(Visible(entries, now).Keys, entries.Keys);
    assert |Visible(entries, now).Keys| == |Visible(entries, now)| && |entries.Keys| == |entries|;
  }

  lemma SubsetCounts(a: set<string>, b: set<string>)
    requires a <= b
    ensures |a| <= |b|
  {
    assert b == a + (b - a);
  }

  /** A refused Create is invisible, even when it purged expired entries to look for room. */
  lemma RefusedCreateIsInvisible<V>(entries: Entries<V>, capacity: nat, id: string, value: V, expiredAt: nat,
                                    now: nat, later: nat)
    requires now <= later && CreateEntry(entries, capacity, id, value, expiredAt, now).0 != Done
    ensures Visible(CreateEntry(entries, capacity, id, value, expiredAt, now).1, later) == Visible(entries, later)
  {
    if expiredAt > now && id !in Visible(entries, now) {
      HiddenEntry(entries, id, now, later);
      VisibleTwice(entries - {id}, now, later);
    }
  }

  lemma VisibleTwice<V>(entries: Entries<V>, now: nat, later: nat)
    requires now <= later
    ensures Visible(Visible(entries, now), later) == Visible(entries, later)
  {}

  /** Dropping an entry that is already invisible changes nothing an observer can see, now or later. */
  lemma HiddenEntry<V>(entries: Entries<V>, id: string, now: nat, later: nat)
    requires now <= later && id !in Visible(entries, now)
    ensures Visible(entries - {id}, later) == Visible(entries, later)
  {
    assert id in entries ==> entries[id].expiredAt <= now;
  }

  /** A full store is really full: nothing that could have been purged is counted. */
  lemma CapacityIsReal<V>(entries: Entries<V>, capacity: nat, id: string, value: V, expiredAt: nat, now: nat)
    requires CreateEntry(entries, capacity, id, value, expiredAt, now).0 == CapacityReached
    ensures |Visible(entries, now)| >= capacity
  {
    var others := entries - {id};
    assert Visible(others, now) == Visible(entries, now);
  }

  /** Rotate is a compare-and-set on what is visible: it succeeds if and only if the
      complete expected value is visible, and it never makes a missing entry appear. */
  lemma RotateObserved<V>(entries: Entries<V>, id: string, expected: V, value: V, expiredAt: nat, now: nat, later: nat)
    requires now <= later
    ensures var (updated, after) := RotateEntry(entries, id, expected, value, expiredAt, now);
            var before := Visible(entries, now);
            && (updated <==> id in before && before[id].value == expected && expiredAt > now)
            && (updated ==> after == entries[id := Stored(value, expiredAt)])
            && (!updated ==> Visible(after, later) == Visible(entries, later))
  {
    if id !in Visible(entries, now) {
      HiddenEntry(entries, id, now, later);
    }
  }

  // ----- The Redis scripts -----

  /** `rotateSessionScript` on the raw key space, which may still hold keys past their deadline. */
  function RedisRotate<V(==)>(keys: Entries<V>, id: string, expected: V, value: V, deadline: nat, now: nat)
    : (bool, Entries<V>)
  {
    if id !in keys || keys[id].value != expected then (false, keys)
    else if deadline <= Milli(now) then (false, keys)
    else (true, keys[id := Stored(value, deadline * NANOS_PER_MILLI)])
  }

  /** `createSessionScript`: the deadline test, then SET NX. */
  function RedisCreate<V>(keys: Entries<V>, id: string, value: V, deadline: nat, now: nat): (Outcome, Entries<V>) {
    if deadline <= Milli(now) then (NotFound, keys)
    else if id in keys then (Conflict, keys)
    else (Done, keys[id := Stored(value, deadline * NANOS_PER_MILLI)])
  }

  /** Whatever expired keys Redis still holds, its rotation decides and shows the same as the memory store's,
      because every caller passes the deadline the stored record already has. */
  lemma RedisRotatesLikeMemory<V>(
    keys: Entries<V>, entries: Entries<V>, id: string, expected: V, value: V, deadline: nat, now: nat, later: nat)
    requires now <= later
    requires Visible(keys, now) == Visible(entries, now)
    requires id in keys && keys[id].value == expected ==> keys[id].expiredAt == deadline * NANOS_PER_MILLI
    ensures var redis := RedisRotate(keys, id, expected, value, deadline, now);
            var memory := RotateEntry(entries, id, expected, value, deadline * NANOS_PER_MILLI, now);
            redis.0 == memory.0 && Visible(redis.1, later) == Visible(memory.1, later)
  {
    DeadlineInMillis(deadline, now);
    VisibleLater(keys, entries, now, later);
    RotateObserved(entries, id, expected, value, deadline * NANOS_PER_MILLI, now, later);
    var redis := RedisRotate(keys, id, expected, value, deadline, now);
    var memory := RotateEntry(entries, id, expected, value, deadline * NANOS_PER_MILLI, now);
    assert id in keys && keys[id].expiredAt > now ==> Visible(keys, now)[id] == keys[id];
    assert id in entries && entries[id].expiredAt > now ==> Visible(entries, now)[id] == entries[id];
    if redis.0 {
      assert id in Visible(keys, now) && id in Visible(entries, now);
      UpdateVisible(keys, entries, id, Stored(value, deadline * NANOS_PER_MILLI), later);
    }
  }

  /** For an identifier never used before, creation agrees as well while the memory store has room. */
  lemma RedisCreatesLikeMemory<V>(
    keys: Entries<V>, entries: Entries<V>, capacity: nat, id: string, value: V, deadline: nat, now: nat, later: nat)
    requires now <= later
    requires Visible(keys, now) == Visible(entries, now)
    requires id !in keys && id !in entries && |entries| < capacity
    ensures var redis := RedisCreate(keys, id, value, deadline, now);
            var memory := CreateEntry(entries, capacity, id, value, deadline * NANOS_PER_MILLI, now);
            redis.0 == memory.0 && Visible(redis.1, later) == Visible(memory.1, later)
  {
    DeadlineInMillis(deadline, now);
    VisibleLater(keys, entries, now, later);
    if deadline > Milli(now) {
      CreateHasRoom(entries, capacity, id, value, deadline * NANOS_PER_MILLI, now);
      UpdateVisible(keys, entries, id, Stored(value, deadline * NANOS_PER_MILLI), later);
    }
  }

  lemma CreateHasRoom<V>(entries: Entries<V>, capacity: nat, id: string, value: V, expiredAt: nat, now: nat)
    requires id !in entries && |entries| < capacity && now < expiredAt
    ensures CreateEntry(entries, capacity, id, value, expiredAt, now) == (Done, entries[id := Stored(value, expiredAt)])
  {
    assert entries - {id} == entries;
  }

  lemma VisibleLater<V>(a: Entries<V>, b: Entries<V>, now: nat, later: nat)
    requires now <= later && Visible(a, now) == Visible(b, now)
    ensures Visible(a, later) == Visible(b, later)
  {
    assert Visible(a, later) == Visible(Visible(a, now), later);
    assert Visible(b, later) == Visible(Visible(b, now), later);
  }

  lemma UpdateVisible<V>(a: Entries<V>, b: Entries<V>, id: string, entry: Stored<V>, later: nat)
    requires Visible(a, later) == Visible(b, later)
    ensures Visible(a[id := entry], later) == Visible(b[id := entry], later)
  {
    var va, vb := Visible(a[id := entry], later), Visible(b[id := entry], later);
    forall k
      ensures k in va <==> k in vb
      ensures k in va ==> va[k] == vb[k]
    {
      assert k in Visible(a, later) <==> k in Visible(b, later);
      assert k in Visible(a, later) ==> Visible(a, later)[k] == Visible(b, later)[k];
    }
  }

  // ----- The memory store itself -----

  /** One mutex-protected call is one method here; `now` is the clock reading it takes while
      holding the mutex and `cancelled` is the state of the caller's context. */
  class MemorySessionStore<V(==)> {
    const capacity: nat
    var sessions: Entries<V>
    var closed: bool

    ghost predicate Valid()
      reads this
    {
      |sessions| <= capacity && (closed ==> sessions == map[])
    }

    constructor (capacity: nat)
      requires capacity > 0
      ensures Valid() && this.capacity == capacity && sessions == map[] && !closed
    {
      this.capacity := capacity;
      sessions := map[];
      closed := false;
    }

    method Create(cancelled: bool, id: string, value: V, expiredAt: nat, now: nat) returns (outcome: Outcome)
      requires Valid()
      modifies this
      ensures Valid() && closed == old(closed)
      ensures (outcome, sessions) ==
              if cancelled then (Cancelled, old(sessions))
              else if old(closed) then (Closed, old(sessions))
              else CreateEntry(old(sessions), capacity, id, value, expiredAt, now)
    {
      if cancelled { return Cancelled; }
      if closed { return Closed; }
      if expiredAt <= now { return NotFound; }
      if id in sessions {
        if sessions[id].expiredAt > now { return Conflict; }
      }
      sessions := sessions - {id};
      if |sessions| >= capacity {
        RemoveExpired(now);
        if |sessions| >= capacity { return CapacityReached; }
      }
      sessions := sessions[id := Stored(value, expiredAt)];
      return Done;
    }

    method Get(cancelled: bool, id: string, now: nat) returns (outcome: Outcome, found: Lookup<V>)
      requires Valid()
      modifies this
      ensures Valid() && closed == old(closed)
      ensures (outcome, found, sessions) ==
              if cancelled then (Cancelled, Miss, old(sessions))
              else if old(closed) then (Closed, Miss, old(sessions))
              else var (hit, after) := GetEntry(old(sessions), id, now);
                   (if hit.Hit? then Done else NotFound, hit, after)
    {
      if cancelled { return Cancelled, Miss; }
      if closed { return Closed, Miss; }
      if id !in sessions || sessions[id].expiredAt <= now {
        RemoveOne(sessions, id);
        sessions := sessions - {id};
        return NotFound, Miss;
      }
      return Done, Hit(sessions[id].value);
    }

    method Rotate(cancelled: bool, id: string, expected: V, value: V, expiredAt: nat, now: nat)
      returns (outcome: Outcome)
      requires Valid()
      modifies this
      ensures Valid() && closed == old(closed)
      ensures (outcome, sessions) ==
              if cancelled then (Cancelled, old(sessions))
              else if old(closed) then (Closed, old(sessions))
              else var (updated, after) := RotateEntry(old(sessions), id, expected, value, expiredAt, now);
                   (if updated then Done else NotUpdated, after)
    {
      if cancelled { return Cancelled; }
      if closed { return Closed; }
      if id !in sessions || sessions[id].expiredAt <= now {
        RemoveOne(sessions, id);
        sessions := sessions - {id};
        return NotUpdated;
      }
      if sessions[id].value != expected || expiredAt <= now { return NotUpdated; }
      assert sessions[id := Stored(value, expiredAt)].Keys == sessions.Keys;
      SameKeys(sessions, sessions[id := Stored(value, expiredAt)]);
      sessions := sessions[id := Stored(value, expiredAt)];
      return Done;
    }

    method Delete(cancelled: bool, id: string) returns (outcome: Outcome)
      requires Valid()
      modifies this
      ensures Valid() && closed == old(closed)
      ensures (outcome, sessions) ==
              if cancelled then (Cancelled, old(sessions))
              else if old(closed) then (Closed, old(sessions))
              else (Done, DeleteEntry(old(sessions), id))
    {
      if cancelled { return Cancelled; }
      if closed { return Closed; }
      RemoveOne(sessions, id);
      sessions := sessions - {id};
      return Done;
    }

    method Close()
      requires Valid()
      modifies this
      ensures Valid() && closed && sessions == map[]
    {
      if !closed {
        closed := true;
        sessions := map[];
      }
    }

    /** The cleanup walk, in whatever order the map yields its keys. */
    method RemoveExpired(now: nat)
      modifies this`sessions
      ensures sessions == Visible(old(sessions), now)
      ensures |sessions| <= |old(sessions)|
    {
      var pending := sessions.Keys;
      while pending != {}
        invariant pending <= old(sessions).Keys
        invariant sessions == map id | id in old(sessions) &&
                  (id in pending || old(sessions)[id].expiredAt > now) :: old(sessions)[id]
        decreases pending
      {
        var id :| id in pending;
        pending := pending - {id};
        if sessions[id].expiredAt <= now {
          sessions := sessions - {id};
        }
      }
      SubsetSize(sessions, old(sessions));
    }
  }

  lemma RemoveOne<V>(entries: Entries<V>, id: string)
    ensures |entries - {id}| <= |entries|
    ensures entries == map[] ==> entries - {id} == map[]
  {
    SubsetSize(entries - {id}, entries);
  }

  lemma SubsetSize<V>(small: Entries<V>, large: Entries<V>)
    requires small.Keys <= large.Keys
    ensures |small| <= |large|
  {
    KeysSize(small.Keys, large.Keys);
    SizeIsKeys(small);
    SizeIsKeys(large);
  }

  lemma SizeIsKeys<V>(entries: Entries<V>)
    ensures |entries| == |entries.Keys|
  {}

  lemma SameKeys<V>(a: Entries<V>, b: Entries<V>)
    requires a.Keys == b.Keys
    ensures |a| == |b|
  {
    SizeIsKeys(a);
    SizeIsKeys(b);
  }

  lemma KeysSize(small: set<string>, large: set<string>)
    requires small <= large
    ensures |small| <= |large|
  {
    if small != {} {
      var x :| x in small;
      KeysSize(small - {x}, large - {x});
    }
  }
}
