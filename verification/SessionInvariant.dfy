/**
The inductive invariant of the session system: what the store and every process hold are
snapshots of one history per session, whose rotations are at least a retry window apart.
*/
module SessionInvariant {
  import opened SessionStore
  import opened SessionProtocol

  /** The newest generation a session ever committed. */
  function Top(life: Life): int {
    |life.history| + 1
  }

  /** The one record a session can have at a generation. */
  function Snapshot(life: Life, generation: int): Record
    requires 1 <= generation <= Top(life)
  {
    life.birth.(generation := generation, rotatedAt := if generation == 1 then 0
                else life.history[generation - 2].stamp)
  }

  /** The stamp of the rotation that replaced a generation. */
  function ReplacedAt(life: Life, generation: int): int
    requires 1 <= generation < Top(life)
  {
    life.history[generation - 1].stamp
  }

  /** The expiry is the instant of creation plus the lifetime that the remember flag chose, to the millisecond. */
  ghost predicate Lasts(c: Config, r: Record) {
    exists instant: nat ::
      && r.createdAt == Milli(instant)
      && (r.rememberMe ==> r.expiredAt == (instant + c.rememberLifetime) / NANOS_PER_MILLI)
      && (!r.rememberMe ==> r.expiredAt == (instant + c.sessionLifetime) / NANOS_PER_MILLI)
  }

  ghost predicate BirthOk(c: Config, r: Record, nowMillis: int) {
    && ValidIdentity(r.identity) && r.generation == 1 && r.rotatedAt == 0
    && 0 < r.createdAt <= nowMillis && r.createdAt < r.expiredAt
    && r.expiredAt - r.createdAt <= MAX_INT64 / NANOS_PER_MILLI + 1
    && Lasts(c, r)
  }

  /** Rotations follow each other by at least the retry window, and all happen inside the session's life. */
  predicate Spaced(c: Config, life: Life, nowMillis: int) {
    && (forall k :: 0 <= k < |life.history| ==>
          && life.birth.createdAt <= life.history[k].stamp <= life.history[k].commit <= nowMillis
          && life.history[k].commit < life.birth.expiredAt)
    && (forall k :: 0 < k < |life.history| ==> life.history[k - 1].stamp + Window(c) <= life.history[k].stamp)
  }

  ghost predicate LifeOk(c: Config, sh: Shared, id: SessionId, life: Life) {
    && id in sh.drawn && life.birth.identity.session == id
    && BirthOk(c, life.birth, Milli(sh.now))
    && Spaced(c, life, Milli(sh.now))
  }

  predicate StoredOk(sh: Shared, id: SessionId, entry: Stored<Record>) {
    && id in sh.lives
    && entry == Stored(Snapshot(sh.lives[id], Top(sh.lives[id])), Deadline(sh.lives[id].birth))
  }

  ghost predicate SharedOk(c: Config, sh: Shared) {
    && sh.now >= NANOS_PER_MILLI
    && (forall id :: id in sh.lives ==> LifeOk(c, sh, id, sh.lives[id]))
    && (forall id :: id in sh.store ==> StoredOk(sh, id, sh.store[id]))
  }

  /** A record some process holds is a snapshot of its session's history. */
  predicate Held(sh: Shared, r: Record) {
    var id := r.identity.session;
    id in sh.lives && 1 <= r.generation <= Top(sh.lives[id]) && r == Snapshot(sh.lives[id], r.generation)
  }

  /** The session is gone or has moved past a generation; neither can be undone. */
  predicate Past(sh: Shared, id: SessionId, generation: int) {
    id in sh.lives && (id !in sh.store || Top(sh.lives[id]) > generation)
  }

  /** A token that was the newest on arrival was replaced, if at all, by a compare-and-set not before its arrival. */
  predicate ArrivalOk(sh: Shared, id: SessionId, generation: int, receivedAt: int, wasCurrent: bool) {
    && generation > 0
    && receivedAt <= Milli(sh.now)
    && (wasCurrent ==>
          && id in sh.lives && generation <= Top(sh.lives[id])
          && (generation < Top(sh.lives[id]) ==> receivedAt <= sh.lives[id].history[generation - 1].commit))
  }

  predicate RenewOk(sh: Shared, record: Record, refreshed: int, identity: Identity, pass: nat) {
    && Held(sh, record) && record.identity == identity
    && (refreshed == record.generation || refreshed == record.generation - 1) && refreshed > 0
    && pass <= 1
    && (pass == 1 ==> Past(sh, record.identity.session, record.generation))
  }

  predicate CurrentOk(sh: Shared, record: Record, pass: nat, current: Record) {
    && Held(sh, current) && current.identity.session == record.identity.session
    && current.generation >= record.generation
    && (pass == 1 ==> current.generation > record.generation)
  }

  predicate RotateOk(c: Config, sh: Shared, record: Record, refreshed: int, pass: nat, current: Record) {
    && pass == 0 && current.generation == record.generation == refreshed
    && (current.generation > 1 ==> current.rotatedAt + Window(c) <= Milli(sh.now))
  }

  predicate NextOk(c: Config, sh: Shared, current: Record, next: Record) {
    && next == current.(generation := current.generation + 1, rotatedAt := next.rotatedAt)
    && current.createdAt <= next.rotatedAt <= Milli(sh.now)
    && (current.generation > 1 ==> current.rotatedAt + Window(c) <= next.rotatedAt)
  }

  predicate TokenOk(sh: Shared, token: SessionToken) {
    && token.session in sh.lives && 1 <= token.generation <= Top(sh.lives[token.session])
    && token == TokenOf(Snapshot(sh.lives[token.session], token.generation))
  }

  ghost predicate ProcessOk(c: Config, sh: Shared, pid: nat, p: Process) {
    match p
    case Issuing(r) =>
      var id := r.identity.session;
      && id in sh.drawn && sh.drawn[id] == pid && id !in sh.lives
      && BirthOk(c, r, Milli(sh.now))
    case Reading(id, generation, receivedAt, wasCurrent) => ArrivalOk(sh, id, generation, receivedAt, wasCurrent)
    case Fetched(id, generation, receivedAt, wasCurrent, r) =>
      ArrivalOk(sh, id, generation, receivedAt, wasCurrent) && Held(sh, r) && r.identity.session == id
    case Punishing(id, generation, receivedAt, wasCurrent) =>
      && ArrivalOk(sh, id, generation, receivedAt, wasCurrent)
      && id in sh.lives && generation < Top(sh.lives[id])
      && ReplacedAt(sh.lives[id], generation) + Window(c) <= receivedAt
    case Accepted(r, refreshed) =>
      Held(sh, r) && refreshed > 0 && (refreshed == r.generation || refreshed == r.generation - 1)
    case RenewReading(r, refreshed, identity, pass) => RenewOk(sh, r, refreshed, identity, pass)
    case RenewFetched(r, refreshed, identity, pass, current) =>
      RenewOk(sh, r, refreshed, identity, pass) && CurrentOk(sh, r, pass, current)
    case RenewDecoded(r, refreshed, identity, pass, current) =>
      RenewOk(sh, r, refreshed, identity, pass) && CurrentOk(sh, r, pass, current)
    case RenewStamping(r, refreshed, identity, pass, current) =>
      && RenewOk(sh, r, refreshed, identity, pass) && CurrentOk(sh, r, pass, current)
      && RotateOk(c, sh, r, refreshed, pass, current)
    case RenewRotating(r, refreshed, identity, pass, current, next) =>
      && RenewOk(sh, r, refreshed, identity, pass) && CurrentOk(sh, r, pass, current)
      && RotateOk(c, sh, r, refreshed, pass, current) && NextOk(c, sh, current, next)
    case Issued(token) => TokenOk(sh, token) && token.generation == 1
    case Holding(session, refreshed, token) =>
      TokenOk(sh, token) && token.session == session && refreshed > 0 &&
          (token.generation == refreshed || token.generation == refreshed + 1)
    case Revoking(_) => true
    case Finished => true
    case Failed(failure) => failure != Exhausted
  }

  ghost predicate Inv(c: Config, s: State) {
    && ValidConfig(c)
    && SharedOk(c, s.shared)
    && (forall pid :: pid in s.processes ==> ProcessOk(c, s.shared, pid, s.processes[pid]))
  }

  // ----- What a step may do to the shared state -----

  /** Time passes, sessions disappear from the store for good, and histories only get longer. */
  predicate LifeGrows(sh: Shared, sh': Shared, id: SessionId)
    requires id in sh.lives
  {
    && id in sh'.lives
    && sh'.lives[id].birth == sh.lives[id].birth
    && sh.lives[id].history <= sh'.lives[id].history
    && (id in sh'.store ==> id in sh.store)
    && (forall k :: |sh.lives[id].history| <= k < |sh'.lives[id].history| ==>
                    sh'.lives[id].history[k].commit == Milli(sh'.now))
  }

  /** Only the process that drew an identifier can give birth to its session. */
  ghost predicate Grows(sh: Shared, sh': Shared, pid: nat) {
    && sh.now <= sh'.now
    && (forall id :: id in sh.drawn ==> id in sh'.drawn && sh'.drawn[id] == sh.drawn[id])
    && (forall id :: id in sh.lives ==> LifeGrows(sh, sh', id))
    && (forall id :: id in sh'.lives && id !in sh.lives ==> id in sh.drawn && sh.drawn[id] == pid)
  }

  ghost predicate StepOk(c: Config, sh: Shared, pid: nat, move: (Shared, Process)) {
    SharedOk(c, move.0) && Grows(sh, move.0, pid) && ProcessOk(c, move.0, pid, move.1)
  }

  lemma SnapshotsStay(sh: Shared, sh': Shared, mover: nat, id: SessionId, generation: int)
    requires Grows(sh, sh', mover) && id in sh.lives && 1 <= generation <= Top(sh.lives[id])
    ensures id in sh'.lives && generation <= Top(sh'.lives[id])
    ensures Snapshot(sh'.lives[id], generation) == Snapshot(sh.lives[id], generation)
  {
    assert LifeGrows(sh, sh', id);
  }

  lemma HeldStays(sh: Shared, sh': Shared, mover: nat, r: Record)
    requires Grows(sh, sh', mover) && Held(sh, r)
    ensures Held(sh', r)
  {
    SnapshotsStay(sh, sh', mover, r.identity.session, r.generation);
  }

  lemma TokenStays(sh: Shared, sh': Shared, mover: nat, token: SessionToken)
    requires Grows(sh, sh', mover) && TokenOk(sh, token)
    ensures TokenOk(sh', token)
  {
    SnapshotsStay(sh, sh', mover, token.session, token.generation);
  }

  lemma GrowsKeepsProcess(c: Config, sh: Shared, sh': Shared, mover: nat, pid: nat, p: Process)
    requires Grows(sh, sh', mover) && ProcessOk(c, sh, pid, p)
    requires p.Issuing? ==> mover != pid || sh'.lives == sh.lives
    ensures ProcessOk(c, sh', pid, p)
  {
    hide Lasts, ValidIdentity, Snapshot, Held, TokenOk;
    MilliMonotone(sh.now, sh'.now);
    if p.Fetched? || p.Accepted? || p.RenewReading? || p.RenewFetched? || p.RenewDecoded? || p.RenewStamping? ||
       p.RenewRotating? {
      HeldStays(sh, sh', mover, p.record);
    }
    if p.RenewFetched? || p.RenewDecoded? || p.RenewStamping? || p.RenewRotating? {
      HeldStays(sh, sh', mover, p.current);
    }
    if p.Issued? || p.Holding? {
      TokenStays(sh, sh', mover, p.token);
    }
  }

  /** Removing entries from the store is always safe. */
  lemma Removed(c: Config, sh: Shared, store: Entries<Record>, pid: nat)
    requires SharedOk(c, sh)
    requires forall id :: id in store ==> id in sh.store && store[id] == sh.store[id]
    ensures SharedOk(c, sh.(store := store)) && Grows(sh, sh.(store := store), pid)
  {
    var sh' := sh.(store := store);
    forall id | id in sh'.store
      ensures StoredOk(sh', id, sh'.store[id])
    {
      assert StoredOk(sh, id, sh.store[id]);
    }
  }

  // ----- The actions -----

  lemma CreateKeeps(c: Config, sh: Shared, pid: nat, r: Record)
    requires ValidConfig(c) && SharedOk(c, sh) && ProcessOk(c, sh, pid, Issuing(r))
    ensures StepOk(c, sh, pid, Act(c, sh, Issuing(r)))
  {
    var id := r.identity.session;
    var (outcome, store) := CreateEntry(sh.store, c.capacity, id, r, Deadline(r), sh.now);
    CreateEntryKeys(sh.store, c.capacity, id, r, Deadline(r), sh.now);
    if outcome == Done {
      BirthKeeps(c, sh, store, pid, r);
    } else {
      Removed(c, sh, store, pid);
    }
  }

  lemma NewLifeOk(c: Config, sh: Shared, r: Record)
    requires BirthOk(c, r, Milli(sh.now)) && r.identity.session in sh.drawn
    ensures LifeOk(c, sh, r.identity.session, Life(r, [])) && Snapshot(Life(r, []), 1) == r
  {
    hide Lasts, ValidIdentity;
  }

  lemma BirthKeeps(c: Config, sh: Shared, store: Entries<Record>, pid: nat, r: Record)
    requires SharedOk(c, sh) && ProcessOk(c, sh, pid, Issuing(r))
    requires r.identity.session in store && store[r.identity.session] == Stored(r, Deadline(r))
    requires forall k :: k in store && k != r.identity.session ==> k in sh.store && store[k] == sh.store[k]
    ensures var sh' := sh.(store := store, lives := sh.lives[r.identity.session := Life(r, [])]);
            StepOk(c, sh, pid, (sh', Issued(TokenOf(r))))
  {
    hide BirthOk, Spaced;
    var id := r.identity.session;
    var sh' := sh.(store := store, lives := sh.lives[id := Life(r, [])]);
    NewLifeOk(c, sh', r);
    assert r.generation == 1 by { BirthIsFirst(c, r, Milli(sh.now)); }
    forall k | k in sh'.store
      ensures StoredOk(sh', k, sh'.store[k])
    {
      assert k != id ==> StoredOk(sh, k, sh.store[k]);
    }
    forall k | k in sh'.lives
      ensures LifeOk(c, sh', k, sh'.lives[k])
    {
      assert k != id ==> LifeOk(c, sh, k, sh.lives[k]);
    }
  }

  lemma BirthIsFirst(c: Config, r: Record, nowMillis: int)
    requires BirthOk(c, r, nowMillis)
    ensures r.generation == 1
  {
  }

  lemma CreateEntryKeys(entries: Entries<Record>, capacity: nat, id: string, value: Record, expiredAt: nat, now: nat)
    ensures var (outcome, after) := CreateEntry(entries, capacity, id, value, expiredAt, now);
            && (outcome == Done ==> id in after && after[id] == Stored(value, expiredAt))
            && (forall k :: k in after && (k != id || outcome != Done) ==> k in entries && after[k] == entries[k])
  {}

  lemma {:induction false} StampsApart(c: Config, life: Life, nowMillis: int, i: int, j: int)
    requires ValidConfig(c) && Spaced(c, life, nowMillis) && 0 <= i <= j < |life.history|
    ensures life.history[i].stamp + (j - i) * Window(c) <= life.history[j].stamp
    ensures i < j ==> life.history[i].stamp + Window(c) <= life.history[j].stamp
    decreases j - i
  {
    if i < j {
      StampsApart(c, life, nowMillis, i, j - 1);
      assert (j - i) * Window(c) == (j - 1 - i) * Window(c) + Window(c);
    }
  }

  /** The verdict on a token, in terms of the session's history: it is punished if and only if it has been
      replaced, it arrived a full retry window after the stamp of the rotation that replaced it, and not
      before the stamp of the newest rotation the read saw. */
  lemma VerdictByHistory(c: Config, life: Life, nowMillis: int, seen: int, generation: int, receivedAt: int)
    requires ValidConfig(c) && BirthOk(c, life.birth, nowMillis) && Spaced(c, life, nowMillis)
    requires 1 <= seen <= Top(life) && 0 < generation
    ensures Judge(c, Snapshot(life, seen), generation, receivedAt) == Revoke
       <==> && generation < seen
            && ReplacedAt(life, generation) + Window(c) <= receivedAt
            && ReplacedAt(life, seen - 1) <= receivedAt
  {
    if generation < seen - 1 {
      StampsApart(c, life, nowMillis, generation - 1, seen - 2);
    }
  }

  lemma JudgeKeeps(c: Config, sh: Shared, pid: nat, p: Process)
    requires ValidConfig(c) && SharedOk(c, sh) && p.Fetched? && ProcessOk(c, sh, pid, p)
    ensures StepOk(c, sh, pid, Act(c, sh, p))
  {
    var id := p.record.identity.session;
    if Decodes(p.record, Milli(sh.now)) && id == p.session {
      assert LifeOk(c, sh, id, sh.lives[id]);
      VerdictByHistory(c, sh.lives[id], Milli(sh.now), p.record.generation, p.generation, p.receivedAt);
    }
  }

  lemma FetchKeeps(c: Config, sh: Shared, pid: nat, p: Process)
    requires ValidConfig(c) && SharedOk(c, sh) && (p.Reading? || p.RenewReading?) && ProcessOk(c, sh, pid, p)
    ensures StepOk(c, sh, pid, Act(c, sh, p))
  {
    hide BirthOk, Spaced, TokenOk;
    var id := if p.Reading? then p.session else p.record.identity.session;
    Removed(c, sh, sh.store - {id}, pid);
    assert id in sh.store ==> StoredOk(sh, id, sh.store[id]);
  }

  lemma DecideKeeps(c: Config, sh: Shared, pid: nat, p: Process)
    requires ValidConfig(c) && SharedOk(c, sh) && p.RenewDecoded? && ProcessOk(c, sh, pid, p)
    ensures StepOk(c, sh, pid, Act(c, sh, p))
  {
    hide Lasts, ValidIdentity;
    var id := p.current.identity.session;
    assert LifeOk(c, sh, id, sh.lives[id]);
    assert p.current.generation > 1 ==> p.current.rotatedAt >= p.current.createdAt;
  }

  lemma StampKeeps(c: Config, sh: Shared, pid: nat, p: Process)
    requires ValidConfig(c) && SharedOk(c, sh) && p.RenewStamping? && ProcessOk(c, sh, pid, p)
    ensures StepOk(c, sh, pid, Act(c, sh, p))
  {
    var id := p.current.identity.session;
    assert LifeOk(c, sh, id, sh.lives[id]);
  }

  lemma RotateKeeps(c: Config, sh: Shared, pid: nat, p: Process)
    requires ValidConfig(c) && SharedOk(c, sh) && p.RenewRotating? && ProcessOk(c, sh, pid, p)
    ensures StepOk(c, sh, pid, Act(c, sh, p))
  {
    var id := p.record.identity.session;
    var (updated, store) := RotateEntry(sh.store, id, p.current, p.next, Deadline(p.current), sh.now);
    assert id in sh.store ==> StoredOk(sh, id, sh.store[id]);
    if updated {
      AppendKeeps(c, sh, pid, id, p.next);
      assert Act(c, sh, p) == (AfterRotation(sh, id, p.next), Holding(id, p.refreshed, TokenOf(p.next)));
    } else {
      // An unequal stored value is the snapshot of a later generation: the session has moved on, or is gone.
      Removed(c, sh, store, pid);
    }
  }

  function Grown(life: Life, stamp: int, commit: int): Life {
    life.(history := life.history + [Rotation(stamp, commit)])
  }

  lemma GrownOk(c: Config, life: Life, next: Record, nowMillis: int)
    requires Spaced(c, life, nowMillis) && nowMillis < life.birth.expiredAt
    requires var current := Snapshot(life, Top(life));
             && next == current.(generation := current.generation + 1, rotatedAt := next.rotatedAt)
             && current.createdAt <= next.rotatedAt <= nowMillis
             && (current.generation > 1 ==> current.rotatedAt + Window(c) <= next.rotatedAt)
    ensures var grown := Grown(life, next.rotatedAt, nowMillis);
            Spaced(c, grown, nowMillis) && Snapshot(grown, Top(grown)) == next
  {}

  /** The shared state after a committed rotation. */
  function AfterRotation(sh: Shared, id: SessionId, next: Record): Shared
    requires id in sh.lives
  {
    sh.(store := sh.store[id := Stored(next, Deadline(sh.lives[id].birth))],
        lives := sh.lives[id := Grown(sh.lives[id], next.rotatedAt, Milli(sh.now))])
  }

  lemma AppendKeeps(c: Config, sh: Shared, pid: nat, id: SessionId, next: Record)
    requires ValidConfig(c) && SharedOk(c, sh)
    requires id in sh.store && sh.store[id].expiredAt > sh.now
    requires StoredOk(sh, id, sh.store[id]) && NextOk(c, sh, sh.store[id].value, next)
    ensures var sh' := AfterRotation(sh, id, next);
            SharedOk(c, sh') && Grows(sh, sh', pid) && Held(sh', next)
  {
    var life := sh.lives[id];
    assert LifeOk(c, sh, id, life);
    DeadlineInMillis(life.birth.expiredAt, sh.now);
    GrownOk(c, life, next, Milli(sh.now));
    AppendShared(c, sh, id, next);
    AppendGrows(sh, pid, id, next);
  }

  lemma AppendGrows(sh: Shared, pid: nat, id: SessionId, next: Record)
    requires id in sh.lives && id in sh.store
    ensures Grows(sh, AfterRotation(sh, id, next), pid)
  {}

  lemma AppendShared(c: Config, sh: Shared, id: SessionId, next: Record)
    requires SharedOk(c, sh) && id in sh.lives
    requires var grown := Grown(sh.lives[id], next.rotatedAt, Milli(sh.now));
             Spaced(c, grown, Milli(sh.now)) && Snapshot(grown, Top(grown)) == next
    ensures SharedOk(c, AfterRotation(sh, id, next))
  {
    var sh' := AfterRotation(sh, id, next);
    forall k | k in sh'.store
      ensures StoredOk(sh', k, sh'.store[k])
    {
      assert k != id ==> StoredOk(sh, k, sh.store[k]);
    }
    forall k | k in sh'.lives
      ensures LifeOk(c, sh', k, sh'.lives[k])
    {
      assert k != id ==> LifeOk(c, sh, k, sh.lives[k]);
      assert LifeOk(c, sh, id, sh.lives[id]);
    }
  }

  lemma ActKeeps(c: Config, sh: Shared, pid: nat, p: Process)
    requires ValidConfig(c) && SharedOk(c, sh) && ProcessOk(c, sh, pid, p)
    ensures StepOk(c, sh, pid, Act(c, sh, p))
  {
    if !CallsStore(p) {
      LocalKeeps(c, sh, pid, p);
    } else if p.Punishing? || p.Revoking? {
      DeleteKeeps(c, sh, pid, p);
    } else if p.Reading? || p.RenewReading? {
      FetchKeeps(c, sh, pid, p);
    } else if p.Issuing? {
      CreateKeeps(c, sh, pid, p.record);
    } else {
      RotateKeeps(c, sh, pid, p);
    }
  }

  lemma DeleteKeeps(c: Config, sh: Shared, pid: nat, p: Process)
    requires ValidConfig(c) && SharedOk(c, sh) && (p.Punishing? || p.Revoking?)
    ensures StepOk(c, sh, pid, Act(c, sh, p))
  {
    Removed(c, sh, DeleteEntry(sh.store, p.session), pid);
  }

  lemma LocalKeeps(c: Config, sh: Shared, pid: nat, p: Process)
    requires ValidConfig(c) && SharedOk(c, sh) && ProcessOk(c, sh, pid, p) && !CallsStore(p)
    ensures StepOk(c, sh, pid, Act(c, sh, p))
  {
    if p.Fetched? {
      JudgeKeeps(c, sh, pid, p);
    } else if p.RenewDecoded? {
      DecideKeeps(c, sh, pid, p);
    } else if p.RenewStamping? {
      StampKeeps(c, sh, pid, p);
    }
  }

  // ----- Whole steps -----

  lemma MovedKeeps(c: Config, s: State, pid: nat, move: (Shared, Process))
    requires Inv(c, s)
    requires StepOk(c, s.shared, pid, move)
    ensures Inv(c, Moved(s, pid, move))
  {
    var s' := Moved(s, pid, move);
    forall q | q in s'.processes
      ensures ProcessOk(c, s'.shared, q, s'.processes[q])
    {
      if q != pid {
        GrowsKeepsProcess(c, s.shared, move.0, pid, q, s.processes[q]);
      }
    }
  }

  lemma IssueKeeps(c: Config, sh: Shared, pid: nat, id: SessionId, identity: Identity, rememberMe: bool)
    requires ValidConfig(c) && SharedOk(c, sh) && id !in sh.drawn
    ensures StepOk(c, sh, pid, Issue(c, sh, pid, id, identity, rememberMe))
  {
    assert id in sh.lives ==> LifeOk(c, sh, id, sh.lives[id]);
    ExpiryIsLater(sh.now, if rememberMe then c.rememberLifetime else c.sessionLifetime);
    var sh' := sh.(drawn := sh.drawn[id := pid]);
    forall k | k in sh'.store
      ensures StoredOk(sh', k, sh'.store[k])
    {
      assert StoredOk(sh, k, sh.store[k]);
    }
    forall k | k in sh'.lives
      ensures LifeOk(c, sh', k, sh'.lives[k])
    {
      assert LifeOk(c, sh, k, sh.lives[k]);
    }
  }

  lemma ExpiryIsLater(now: nat, lifetime: int)
    requires NANOS_PER_MILLI <= lifetime <= MAX_INT64
    ensures Milli(now) < (now + lifetime) / NANOS_PER_MILLI
    ensures (now + lifetime) / NANOS_PER_MILLI - Milli(now) <= MAX_INT64 / NANOS_PER_MILLI + 1
  {}

  /** A step of nobody in particular: time passing, or a cleanup sweep. */
  lemma SharedStepKeeps(c: Config, s: State, sh': Shared)
    requires Inv(c, s)
    requires s.shared.now <= sh'.now && sh'.drawn == s.shared.drawn && sh'.lives == s.shared.lives
    requires forall id :: id in sh'.store ==> id in s.shared.store && sh'.store[id] == s.shared.store[id]
    ensures Inv(c, s.(shared := sh'))
  {
    MilliMonotone(s.shared.now, sh'.now);
    forall id | id in sh'.lives
      ensures LifeOk(c, sh', id, sh'.lives[id])
    {
      assert LifeOk(c, s.shared, id, s.shared.lives[id]);
    }
    forall id | id in sh'.store
      ensures StoredOk(sh', id, sh'.store[id])
    {
      assert StoredOk(s.shared, id, s.shared.store[id]);
    }
    forall q | q in s.processes
      ensures ProcessOk(c, sh', q, s.processes[q])
    {
      GrowsKeepsProcess(c, s.shared, sh', q, q, s.processes[q]);
    }
  }

  lemma StartKeeps(c: Config, s: State, step: Step)
    requires Inv(c, s) && (step.StartIssue? || step.StartRead? || step.StartRenew? || step.StartRevoke?)
    ensures Inv(c, Apply(c, s, step))
  {
    hide BirthOk, Spaced, Decodes;
    Removed(c, s.shared, s.shared.store, step.pid);
    match step {
      case StartIssue(pid, id, identity, rememberMe) =>
        if pid !in s.processes && id !in s.shared.drawn {
          IssueKeeps(c, s.shared, pid, id, identity, rememberMe);
          MovedKeeps(c, s, pid, Issue(c, s.shared, pid, id, identity, rememberMe));
        }
      case StartRead(pid, id, generation) =>
        if pid !in s.processes && generation > 0 {
          assert id in s.shared.store ==> StoredOk(s.shared, id, s.shared.store[id]);
          MovedKeeps(c, s, pid, (s.shared,
                                 Reading(id, generation, Milli(s.shared.now), IsNewest(s.shared, id, generation))));
        }
      case StartRenew(pid, reader, identity) =>
        if pid !in s.processes && reader in s.processes && s.processes[reader].Accepted? {
          assert ProcessOk(c, s.shared, reader, s.processes[reader]);
          MovedKeeps(c, s, pid, (s.shared, Renew(s.processes[reader], identity)));
        }
      case StartRevoke(pid, id) =>
        if pid !in s.processes { MovedKeeps(c, s, pid, (s.shared, Revoking(id))); }
    }
  }

  lemma AdvanceKeeps(c: Config, s: State, pid: nat)
    requires Inv(c, s) && pid in s.processes
    ensures Inv(c, Moved(s, pid, Act(c, s.shared, s.processes[pid])))
    ensures Inv(c, Moved(s, pid, (Act(c, s.shared, s.processes[pid]).0, Failed(StoreError))))
    ensures Inv(c, Moved(s, pid, (s.shared, Failed(StoreError))))
  {
    ActKeeps(c, s.shared, pid, s.processes[pid]);
    MovedKeeps(c, s, pid, Act(c, s.shared, s.processes[pid]));
    MovedKeeps(c, s, pid, (Act(c, s.shared, s.processes[pid]).0, Failed(StoreError)));
    Removed(c, s.shared, s.shared.store, pid);
    MovedKeeps(c, s, pid, (s.shared, Failed(StoreError)));
  }

  lemma MoveKeeps(c: Config, s: State, step: Step)
    requires Inv(c, s) && (step.Advance? || step.Break? || step.Lose?)
    ensures Inv(c, Apply(c, s, step))
  {
    if step.pid in s.processes {
      AdvanceKeeps(c, s, step.pid);
    }
  }

  lemma QuietKeeps(c: Config, s: State, step: Step)
    requires Inv(c, s) && (step.Tick? || step.Sweep?)
    ensures Inv(c, Apply(c, s, step))
  {
    SharedStepKeeps(c, s, Apply(c, s, step).shared);
  }

  lemma ApplyKeeps(c: Config, s: State, step: Step)
    requires Inv(c, s)
    ensures Inv(c, Apply(c, s, step))
  {
    if step.Tick? || step.Sweep? {
      QuietKeeps(c, s, step);
    } else if step.Advance? || step.Break? || step.Lose? {
      MoveKeeps(c, s, step);
    } else {
      StartKeeps(c, s, step);
    }
  }

  /** Every state of every schedule satisfies the invariant. */
  lemma {:induction false} RunKeeps(c: Config, s: State, schedule: seq<Step>)
    requires Inv(c, s)
    ensures Inv(c, Run(c, s, schedule))
    decreases |schedule|
  {
    if schedule != [] {
      RunKeeps(c, s, schedule[..|schedule| - 1]);
      ApplyKeeps(c, Run(c, s, schedule[..|schedule| - 1]), schedule[|schedule| - 1]);
    }
  }
}
