/**
Slow readers, writers and invalidations around the versioned cache, step by
step. The time is the number of steps taken so far.
*/
module CacheProtocol {
  import opened ValueCache

  type Database = map<Key, Value>

  /** A cached value remembers when it was read from the database. */
  datatype Read = Read(value: Value, readAt: nat)

  datatype Reader =
    | Idle
    | Begun(key: Key, begun: nat)
    | Versioned(key: Key, begun: nat, version: nat)
    | Missed(key: Key, begun: nat, version: nat)
    | Fetched(key: Key, begun: nat, version: nat, read: Read)
    | Hit(key: Key, begun: nat, read: Read)

  datatype Step =
    | Write(key: Key, value: Value)
    | Remove(key: Key)
    | Bump
    | Begin(reader: nat, key: Key)
    | ReadVersion(reader: nat)
    | GetValue(reader: nat)
    | Query(reader: nat)
    | Fill(reader: nat)
    | Finish(reader: nat)
    | Evict(names: set<Name>)

  /** bumps[i] is the time at which the version became i + 1; history[t] is the database at time t. */
  datatype State = State(history: seq<Database>, bumps: seq<nat>, entries: map<Name, Read>, readers: map<nat, Reader>)

  function ReaderOf(s: State, reader: nat): Reader {
    if reader in s.readers then s.readers[reader] else Idle
  }

  function Now(s: State): nat
    requires s.history != []
  {
    |s.history| - 1
  }

  function SetReader(s: State, reader: nat, next: Reader): State {
    s.(readers := s.readers[reader := next])
  }

  /** What one step does before the clock ticks. A step that is not enabled changes nothing. */
  function Act(s: State, step: Step): State
    requires s.history != []
  {
    var now, database := Now(s), s.history[|s.history| - 1];
    match step
    case Write(key, value) => s.(history := s.history[now := database[key := value]])
    case Remove(key) => s.(history := s.history[now := database - {key}])
    case Bump => s.(bumps := s.bumps + [now])
    case Begin(reader, key) => if ReaderOf(s, reader).Idle? then SetReader(s, reader, Begun(key, now)) else s
    case ReadVersion(reader) =>
      var r := ReaderOf(s, reader);
      if r.Begun? then SetReader(s, reader, Versioned(r.key, r.begun, |s.bumps|)) else s
    case GetValue(reader) =>
      var r := ReaderOf(s, reader);
      if !r.Versioned? then s
      else if Name(r.version, r.key) in s.entries
          then SetReader(s, reader, Hit(r.key, r.begun, s.entries[Name(r.version, r.key)]))
      else SetReader(s, reader, Missed(r.key, r.begun, r.version))
    case Query(reader) =>
      var r := ReaderOf(s, reader);
      if !r.Missed? then s
      else if r.key in database
          then SetReader(s, reader, Fetched(r.key, r.begun, r.version, Read(database[r.key], now)))
      else SetReader(s, reader, Idle)
    case Fill(reader) =>
      var r := ReaderOf(s, reader);
      if r.Fetched? then SetReader(s.(entries := s.entries[Name(r.version, r.key) := r.read]), reader, Idle) else s
    case Finish(reader) => if ReaderOf(s, reader).Hit? then SetReader(s, reader, Idle) else s
    case Evict(names) => s.(entries := s.entries - names)
  }

  /** The database of the next instant starts as the current one. */
  function Apply(s: State, step: Step): (next: State)
    requires s.history != []
    ensures next.history != []
  {
    var acted := Act(s, step);
    acted.(history := acted.history + [acted.history[|acted.history| - 1]])
  }

  function Run(s: State, steps: seq<Step>): (end: State)
    requires s.history != []
    ensures end.history != []
  {
    if steps == [] then s else Apply(Run(s, steps[..|steps| - 1]), steps[|steps| - 1])
  }

  function Start(database: Database): State {
    State([database], [], map[], map[])
  }

  /** The value stood in the database when it was read, at or after the bump that opened its version. */
  ghost predicate Honest(s: State, version: nat, key: Key, read: Read) {
    && version <= |s.bumps|
    && read.readAt < |s.history| - 1
    && key in s.history[read.readAt]
    && s.history[read.readAt][key] == read.value
    && (version > 0 ==> s.bumps[version - 1] <= read.readAt)
  }

  /** The version was read late enough to count every bump before the load began. */
  ghost predicate CountsBumps(s: State, begun: nat, version: nat) {
    && version <= |s.bumps|
    && begun < |s.history| - 1
    && forall i :: version <= i < |s.bumps| ==> begun <= s.bumps[i]
  }

  /** The value is at least as new as every bump before the load began. */
  ghost predicate NewEnough(s: State, key: Key, begun: nat, read: Read) {
    && read.readAt < |s.history| - 1
    && key in s.history[read.readAt]
    && s.history[read.readAt][key] == read.value
    && forall i :: 0 <= i < |s.bumps| && s.bumps[i] < begun ==> s.bumps[i] <= read.readAt
  }

  ghost predicate ReaderOk(s: State, reader: Reader) {
    match reader
    case Idle => true
    case Begun(key, begun) => begun < |s.history| - 1
    case Versioned(key, begun, version) => CountsBumps(s, begun, version)
    case Missed(key, begun, version) => CountsBumps(s, begun, version)
    case Fetched(key, begun, version, read) => CountsBumps(s, begun, version) && Honest(s, version, key, read)
    case Hit(key, begun, read) => begun < |s.history| - 1 && NewEnough(s, key, begun, read)
  }

  ghost predicate Inv(s: State) {
    && s.history != []
    && (forall i :: 0 <= i < |s.bumps| ==> s.bumps[i] < |s.history| - 1)
    && (forall i, j :: 0 <= i <= j < |s.bumps| ==> s.bumps[i] <= s.bumps[j])
    && (forall name :: name in s.entries ==> Honest(s, name.version, name.key, s.entries[name]))
    && (forall reader :: reader in s.readers ==> ReaderOk(s, s.readers[reader]))
  }

  /** Past instants are final, and bumps are only added at the present one. */
  ghost predicate Grows(s: State, next: State)
    requires s.history != [] && next.history != []
  {
    && |next.history| == |s.history| + 1
    && (forall t :: 0 <= t < |s.history| - 1 ==> next.history[t] == s.history[t])
    && (next.bumps == s.bumps || next.bumps == s.bumps + [Now(s)])
  }

  lemma StepGrows(s: State, step: Step)
    requires s.history != []
    ensures Grows(s, Apply(s, step))
  {
  }

  lemma HonestStays(s: State, next: State, version: nat, key: Key, read: Read)
    requires s.history != [] && next.history != [] && Grows(s, next) && Honest(s, version, key, read)
    ensures Honest(next, version, key, read)
  {
  }

  lemma ReaderStays(s: State, next: State, reader: Reader)
    requires Inv(s) && next.history != [] && Grows(s, next) && ReaderOk(s, reader)
    ensures ReaderOk(next, reader)
  {
  }

  /** What a reader learns in one step is right at the next instant. */
  lemma ReaderStepOk(s: State, step: Step, reader: nat)
    requires Inv(s)
    requires step in {ReadVersion(reader), GetValue(reader), Query(reader), Fill(reader), Finish(reader)} ||
             (step.Begin? && step.reader == reader)
    ensures ReaderOk(Apply(s, step), ReaderOf(Apply(s, step), reader))
  {
    var next := Apply(s, step);
    StepGrows(s, step);
    var r := ReaderOf(s, reader);
    ReaderStays(s, next, r);
    if step.GetValue? && r.Versioned? && Name(r.version, r.key) in s.entries {
      HitIsNewEnough(s, r, s.entries[Name(r.version, r.key)]);
      ReaderStays(s, next, Hit(r.key, r.begun, s.entries[Name(r.version, r.key)]));
    } else if step.Query? && r.Missed? && r.key in s.history[Now(s)] {
      assert next.history[Now(s)] == s.history[Now(s)];
    }
  }

  lemma HitIsNewEnough(s: State, r: Reader, read: Read)
    requires Inv(s) && r.Versioned? && CountsBumps(s, r.begun, r.version)
    requires Honest(s, r.version, r.key, read)
    ensures ReaderOk(s, Hit(r.key, r.begun, read))
  {
    forall i | 0 <= i < |s.bumps| && s.bumps[i] < r.begun ensures s.bumps[i] <= read.readAt {
      assert i < r.version;
      assert s.bumps[i] <= s.bumps[r.version - 1];
    }
  }

  lemma StepKeeps(s: State, step: Step)
    requires Inv(s)
    ensures Inv(Apply(s, step))
  {
    hide ReaderOk, Honest;
    var next := Apply(s, step);
    StepGrows(s, step);
    forall name | name in next.entries ensures Honest(next, name.version, name.key, next.entries[name]) {
      EntryStays(s, step, name);
    }
    forall reader | reader in next.readers ensures ReaderOk(next, next.readers[reader]) {
      ReaderAfterStep(s, step, reader);
    }
  }

  lemma EntryStays(s: State, step: Step, name: Name)
    requires Inv(s) && name in Apply(s, step).entries
    ensures Honest(Apply(s, step), name.version, name.key, Apply(s, step).entries[name])
  {
    hide Honest;
    StepGrows(s, step);
    if name in s.entries && Apply(s, step).entries[name] == s.entries[name] {
      HonestStays(s, Apply(s, step), name.version, name.key, s.entries[name]);
    } else {
      var r := ReaderOf(s, step.reader);
      assert ReaderOk(s, r);
      HonestStays(s, Apply(s, step), r.version, r.key, r.read);
    }
  }

  lemma ReaderAfterStep(s: State, step: Step, reader: nat)
    requires Inv(s) && reader in Apply(s, step).readers
    ensures ReaderOk(Apply(s, step), Apply(s, step).readers[reader])
  {
    hide ReaderOk, Honest;
    StepGrows(s, step);
    if step in {ReadVersion(reader), GetValue(reader), Query(reader), Fill(reader), Finish(reader)} ||
       (step.Begin? && step.reader == reader) {
      ReaderStepOk(s, step, reader);
    } else {
      assert reader in s.readers && Apply(s, step).readers[reader] == s.readers[reader];
      ReaderStays(s, Apply(s, step), s.readers[reader]);
    }
  }

  lemma {:induction false} RunKeeps(database: Database, steps: seq<Step>)
    ensures Inv(Run(Start(database), steps))
  {
    if steps != [] {
      RunKeeps(database, steps[..|steps| - 1]);
      StepKeeps(Run(Start(database), steps[..|steps| - 1]), steps[|steps| - 1]);
    }
  }

  /** In every run, a hit of a load begun after an invalidation returned was read after that bump. */
  lemma HitsFollowInvalidations(database: Database, steps: seq<Step>, reader: nat, bump: nat)
    requires var s := Run(Start(database), steps);
             && ReaderOf(s, reader).Hit?
             && bump < |s.bumps|
             && s.bumps[bump] < ReaderOf(s, reader).begun
    ensures var s := Run(Start(database), steps);
            var r := ReaderOf(s, reader);
            && s.bumps[bump] <= r.read.readAt < Now(s)
            && r.key in s.history[r.read.readAt]
            && s.history[r.read.readAt][r.key] == r.read.value
  {
    RunKeeps(database, steps);
    assert ReaderOk(Run(Start(database), steps), ReaderOf(Run(Start(database), steps), reader));
  }

  ghost predicate Unchanged(s: State, key: Key, value: Value, since: nat) {
    forall t :: since <= t < |s.history| ==> key in s.history[t] && s.history[t][key] == value
  }

  /** A write that stands since before the invalidation is what every later hit returns. */
  lemma CommittedWriteIsSeen(database: Database, steps: seq<Step>, reader: nat, bump: nat, value: Value)
    requires var s := Run(Start(database), steps);
             && ReaderOf(s, reader).Hit?
             && bump < |s.bumps|
             && s.bumps[bump] < ReaderOf(s, reader).begun
             && Unchanged(s, ReaderOf(s, reader).key, value, s.bumps[bump])
    ensures ReaderOf(Run(Start(database), steps), reader).read.value == value
  {
    HitsFollowInvalidations(database, steps, reader, bump);
  }

  /** A value that was filled in under the current version is what the next load of its key returns. */
  lemma FilledValueIsHit(s: State, filler: nat, reader: nat)
    requires s.history != [] && filler != reader
    requires ReaderOf(s, filler).Fetched? && ReaderOf(s, filler).version == |s.bumps| && ReaderOf(s, reader).Idle?
    ensures var r := ReaderOf(s, filler);
            var begun := Apply(Apply(s, Fill(filler)), Begin(reader, r.key));
            var after := Apply(Apply(begun, ReadVersion(reader)), GetValue(reader));
            ReaderOf(after, reader) == Hit(r.key, Now(s) + 1, r.read)
  {
    var filled := Apply(s, Fill(filler));
    assert Now(filled) == Now(s) + 1;
    var begun := Apply(filled, Begin(reader, ReaderOf(s, filler).key));
    assert ReaderOf(begun, reader).Begun? && begun.bumps == s.bumps && begun.entries == filled.entries;
  }

  /** A load that finds nothing in the cache asks the database, and what it fills in is the value found there. */
  lemma MissedValueIsRead(s: State, reader: nat)
    requires s.history != [] && ReaderOf(s, reader).Missed?
    ensures var r := ReaderOf(s, reader);
            var database := s.history[|s.history| - 1];
            var read := Apply(s, Query(reader));
            if r.key in database
            then Apply(read, Fill(reader)).entries
                 == s.entries[Name(r.version, r.key) := Read(database[r.key], Now(s))]
            else ReaderOf(read, reader).Idle? && read.entries == s.entries
  {
  }

  // The one-slot cache inside the protocol

  ghost predicate OneSlotEach(s: State) {
    forall a, b :: a in s.entries && b in s.entries && a.key == b.key ==> a == b
  }

  function OtherVersions(s: State, name: Name): set<Name> {
    set other | other in s.entries && other.key == name.key && other != name
  }

  /** Filling a slot is a fill followed by the eviction of the key's other versions, so the same theorem covers it. */
  lemma OneSlotFillIsAnEviction(s: State, reader: nat)
    requires s.history != [] && OneSlotEach(s) && ReaderOf(s, reader).Fetched?
    ensures var r := ReaderOf(s, reader);
            var name := Name(r.version, r.key);
            var filled := Apply(s, Fill(reader));
            var after := Apply(filled, Evict(OtherVersions(filled, name)));
            && OneSlotEach(after)
            && after.entries == (s.entries - OtherVersions(s, name))[name := r.read]
            && after.bumps == s.bumps
  {
    var r := ReaderOf(s, reader);
    var name := Name(r.version, r.key);
    var filled := Apply(s, Fill(reader));
    FilledEntry(s, reader);
    EvictedEntries(filled, OtherVersions(filled, name));
    hide Apply;
    assert OtherVersions(filled, name) == OtherVersions(s, name);
  }

  lemma FilledEntry(s: State, reader: nat)
    requires s.history != [] && ReaderOf(s, reader).Fetched?
    ensures var r, filled := ReaderOf(s, reader), Apply(s, Fill(reader));
            filled.entries == s.entries[Name(r.version, r.key) := r.read] && filled.bumps == s.bumps
  {
  }

  lemma EvictedEntries(s: State, names: set<Name>)
    requires s.history != []
    ensures Apply(s, Evict(names)).entries == s.entries - names && Apply(s, Evict(names)).bumps == s.bumps
  {
  }
}
