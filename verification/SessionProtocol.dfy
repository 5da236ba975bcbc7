/**
Refresh-session rotation as an interleaved system.

Every store call and every clock reading of Issue, ReadRefresh, Renew and Revoke is one
atomic step of one process; between two steps of a process any other process may run and
the clock may advance.  A schedule is any sequence of steps, so a statement about
Run(config, initial, schedule) is a statement about every interleaving.
*/
module SessionProtocol {
  import opened SessionStore

  const MAX_INT64: int := 0x7fff_ffff_ffff_ffff

  type SessionId = string

  datatype Identity = Identity(userId: int, username: string, code: string, session: SessionId, credentialVersion: int)

  datatype Record = Record(
    identity: Identity, rememberMe: bool, generation: int, createdAt: int, expiredAt: int, rotatedAt: int)

  datatype SessionToken = SessionToken(session: SessionId, generation: int, expiredAt: int, rememberMe: bool)

  /** Durations in nanoseconds. */
  datatype Config = Config(sessionLifetime: int, rememberLifetime: int, retryWindow: int, capacity: nat)

  /** What NewSessions accepts; a duration is a 64-bit count of nanoseconds. */
  predicate ValidConfig(c: Config) {
    && NANOS_PER_MILLI <= c.sessionLifetime <= c.rememberLifetime <= MAX_INT64
    && NANOS_PER_MILLI <= c.retryWindow <= 60_000 * NANOS_PER_MILLI
    && c.retryWindow < c.sessionLifetime
    && c.capacity > 0
  }

  function Window(c: Config): int {
    c.retryWindow / NANOS_PER_MILLI
  }

  // ----- The pure parts -----

  predicate ValidIdentity(i: Identity) {
    i.credentialVersion > 0 && i.userId > 0 && i.username != "" && i.code != ""
  }

  /** The shape checks of decodeRecord, apart from the comparison with the clock. */
  predicate WellShaped(r: Record) {
    && ValidIdentity(r.identity)
    && r.generation > 0 && r.createdAt > 0 && r.expiredAt > r.createdAt && r.rotatedAt >= 0
    && (r.generation == 1 ==> r.rotatedAt == 0)
    && (r.generation > 1 ==> r.createdAt <= r.rotatedAt < r.expiredAt)
  }

  predicate Decodes(r: Record, nowMillis: int) {
    WellShaped(r) && r.expiredAt > nowMillis
  }

  predicate WithinRetry(c: Config, r: Record, at: int) {
    r.rotatedAt > 0 && at < r.rotatedAt + Window(c)
  }

  function TokenOf(r: Record): SessionToken {
    SessionToken(r.identity.session, r.generation, r.expiredAt, r.rememberMe)
  }

  datatype Verdict = Accept | Reject | Revoke

  /** validateRefresh: what happens to a token of the given generation. */
  function Judge(c: Config, r: Record, generation: int, receivedAt: int): Verdict {
    if WithinRetry(c, r, receivedAt) && (generation == r.generation || generation == r.generation - 1) then Accept
    else if generation == r.generation && generation < MAX_INT64 then Accept
    else if generation < r.generation && r.rotatedAt <= receivedAt then Revoke
    else Reject
  }

  datatype Decision = Give | Deny | Rotate

  /** One pass of the Renew loop after a successful read. */
  function Decide(c: Config, accepted: Record, refreshed: int, identity: Identity, current: Record,
                  nowMillis: int): Decision
  {
    if current.identity != identity then Deny
    else if current.generation != accepted.generation then
      if current.generation == accepted.generation + 1 && refreshed == accepted.generation then Give else Deny
    else if refreshed == current.generation - 1 ||
            (refreshed == current.generation && WithinRetry(c, current, nowMillis)) then Give
    else if refreshed != current.generation || current.generation == MAX_INT64 then Deny
    else Rotate
  }

  // ----- Processes -----

  datatype Failure = Denied | StoreError | Exhausted

  /** The program counter and the locals of one call. */
  datatype Process =
    | Issuing(record: Record)
    // ReadRefresh: token parsed and received, value fetched, family about to be deleted, accepted.
    // `wasCurrent` records, for the theorems only, whether the token was the newest one on arrival.
    | Reading(session: SessionId, generation: int, receivedAt: int, wasCurrent: bool)
    | Fetched(session: SessionId, generation: int, receivedAt: int, wasCurrent: bool, record: Record)
    | Punishing(session: SessionId, generation: int, receivedAt: int, wasCurrent: bool)
    | Accepted(record: Record, refreshed: int)
    // Renew: about to read, value fetched, value decoded, about to stamp, about to compare-and-set.
    | RenewReading(record: Record, refreshed: int, identity: Identity, pass: nat)
    | RenewFetched(record: Record, refreshed: int, identity: Identity, pass: nat, current: Record)
    | RenewDecoded(record: Record, refreshed: int, identity: Identity, pass: nat, current: Record)
    | RenewStamping(record: Record, refreshed: int, identity: Identity, pass: nat, current: Record)
    | RenewRotating(record: Record, refreshed: int, identity: Identity, pass: nat, current: Record, next: Record)
    | Issued(token: SessionToken)
    | Holding(session: SessionId, refreshed: int, token: SessionToken)
    | Revoking(session: SessionId)
    | Finished
    | Failed(failure: Failure)

  /** History: a committed rotation, its RotatedAt stamp and the instant of its compare-and-set. */
  datatype Rotation = Rotation(stamp: int, commit: int)

  /** History: the record a session was created with and its rotations so far. */
  datatype Life = Life(birth: Record, history: seq<Rotation>)

  /** The clock and the store, with a history no process ever reads. */
  datatype Shared = Shared(now: nat, store: Entries<Record>, drawn: map<SessionId, nat>, lives: map<SessionId, Life>)

  datatype State = State(shared: Shared, processes: map<nat, Process>)

  datatype Step =
    | Tick(elapsed: nat)
    | StartIssue(pid: nat, id: SessionId, identity: Identity, rememberMe: bool)
    | StartRead(pid: nat, id: SessionId, generation: int)
    | StartRenew(pid: nat, reader: nat, identity: Identity)
    | StartRevoke(pid: nat, id: SessionId)
    | Advance(pid: nat)
    | Break(pid: nat)      // the store call fails before it has any effect
    | Lose(pid: nat)       // the store call takes effect but its reply is lost
    | Sweep

  function Initial(now: nat): State {
    State(Shared(now, map[], map[], map[]), map[])
  }

  function Deadline(r: Record): nat {
    if r.expiredAt < 0 then 0 else r.expiredAt * NANOS_PER_MILLI
  }

  predicate IsNewest(sh: Shared, id: SessionId, generation: int) {
    id in sh.store && sh.store[id].expiredAt > sh.now && sh.store[id].value.generation == generation
  }

  /** Issue up to its store call.  Session identifiers are 256 random bits, modelled as never drawn before. */
  function Issue(c: Config, sh: Shared, pid: nat, id: SessionId, identity: Identity, rememberMe: bool): (Shared,
                                                                                                         Process)
  {
    if !ValidIdentity(identity) then (sh, Failed(Denied))
    else
      var lifetime := if rememberMe then c.rememberLifetime else c.sessionLifetime;
      var expiry := (sh.now + lifetime) / NANOS_PER_MILLI;
      (sh.(drawn := sh.drawn[id := pid]),
       Issuing(Record(identity.(session := id), rememberMe, 1, Milli(sh.now), expiry, 0)))
  }

  /** Renew up to its first read. */
  function Renew(accepted: Process, identity: Identity): Process
    requires accepted.Accepted?
  {
    if accepted.refreshed <= 0 || accepted.record.identity != identity then Failed(Denied)
    else RenewReading(accepted.record, accepted.refreshed, identity, 0)
  }

  /** The next atomic action of a process. */
  function Act(c: Config, sh: Shared, p: Process): (Shared, Process) {
    match p
    case Issuing(record) => ActCreate(c, sh, record)
    case Reading(id, generation, receivedAt, wasCurrent) =>
      var (found, store) := GetEntry(sh.store, id, sh.now);
      (sh.(store := store),
       if found.Hit? then Fetched(id, generation, receivedAt, wasCurrent, found.value) else Failed(Denied))
    case Fetched(id, generation, receivedAt, wasCurrent, record) =>
      (sh,
       if !Decodes(record, Milli(sh.now)) || record.identity.session != id then Failed(Denied)
       else match Judge(c, record, generation, receivedAt)
            case Accept => Accepted(record, generation)
            case Reject => Failed(Denied)
            case Revoke => Punishing(id, generation, receivedAt, wasCurrent))
    case Punishing(id, _, _, _) => (sh.(store := DeleteEntry(sh.store, id)), Failed(Denied))
    case RenewReading(record, refreshed, identity, pass) =>
      var (found, store) := GetEntry(sh.store, record.identity.session, sh.now);
      (sh.(store := store),
       if found.Hit? then RenewFetched(record, refreshed, identity, pass, found.value) else Failed(Denied))
    case RenewFetched(record, refreshed, identity, pass, current) =>
      (sh,
       if !Decodes(current, Milli(sh.now)) || current.identity.session != record.identity.session then Failed(Denied)
       else RenewDecoded(record, refreshed, identity, pass, current))
    case RenewDecoded(record, refreshed, identity, pass, current) =>
      (sh,
       match Decide(c, record, refreshed, identity, current, Milli(sh.now))
       case Give => Holding(record.identity.session, refreshed, TokenOf(current))
       case Deny => Failed(Denied)
       case Rotate => RenewStamping(record, refreshed, identity, pass, current))
    case RenewStamping(record, refreshed, identity, pass, current) =>
      var next := current.(generation := current.generation + 1, rotatedAt := Milli(sh.now));
      (sh, RenewRotating(record, refreshed, identity, pass, current, next))
    case RenewRotating(record, refreshed, identity, pass, current, next) =>
      ActRotate(sh, record, refreshed, identity, pass, current, next)
    case Revoking(id) => (sh.(store := DeleteEntry(sh.store, id)), Finished)
    case _ => (sh, p)
  }

  function ActCreate(c: Config, sh: Shared, record: Record): (Shared, Process) {
    var id := record.identity.session;
    var (outcome, store) := CreateEntry(sh.store, c.capacity, id, record, Deadline(record), sh.now);
    if outcome == Done then
      (sh.(store := store, lives := sh.lives[id := Life(record, [])]), Issued(TokenOf(record)))
    else (sh.(store := store), Failed(StoreError))
  }

  function ActRotate(sh: Shared, record: Record, refreshed: int, identity: Identity, pass: nat, current: Record,
                     next: Record)
    : (Shared, Process)
  {
    var id := record.identity.session;
    var (updated, store) := RotateEntry(sh.store, id, current, next, Deadline(current), sh.now);
    if updated then (Rotated(sh.(store := store), id, next.rotatedAt), Holding(id, refreshed, TokenOf(next)))
    else if pass + 1 < 3 then (sh.(store := store), RenewReading(record, refreshed, identity, pass + 1))
    else (sh.(store := store), Failed(Exhausted))
  }

  /** Append a rotation to a session's history. */
  function Rotated(sh: Shared, id: SessionId, stamp: int): Shared {
    if id !in sh.lives then sh
    else
      var life := sh.lives[id];
      sh.(lives := sh.lives[id := life.(history := life.history + [Rotation(stamp, Milli(sh.now))])])
  }

  predicate CallsStore(p: Process) {
    p.Issuing? || p.Reading? || p.Punishing? || p.RenewReading? || p.RenewRotating? || p.Revoking?
  }

  /** A step that is not enabled changes nothing. */
  function Apply(c: Config, s: State, step: Step): State {
    match step
    case Tick(elapsed) => s.(shared := s.shared.(now := s.shared.now + elapsed))
    case Sweep => s.(shared := s.shared.(store := Visible(s.shared.store, s.shared.now)))
    case StartIssue(pid, id, identity, rememberMe) =>
      if pid in s.processes || id in s.shared.drawn then s
      else Moved(s, pid, Issue(c, s.shared, pid, id, identity, rememberMe))
    case StartRead(pid, id, generation) =>
      if pid in s.processes || generation <= 0 then s
      else Moved(s, pid, (s.shared, Reading(id, generation, Milli(s.shared.now), IsNewest(s.shared, id, generation))))
    case StartRenew(pid, reader, identity) =>
      if pid in s.processes || reader !in s.processes || !s.processes[reader].Accepted? then s
      else Moved(s, pid, (s.shared, Renew(s.processes[reader], identity)))
    case StartRevoke(pid, id) =>
      if pid in s.processes then s else Moved(s, pid, (s.shared, Revoking(id)))
    case Advance(pid) =>
      if pid in s.processes then Moved(s, pid, Act(c, s.shared, s.processes[pid])) else s
    case Break(pid) =>
      if pid in s.processes && CallsStore(s.processes[pid]) then Moved(s, pid, (s.shared, Failed(StoreError))) else s
    case Lose(pid) =>
      if pid in s.processes && CallsStore(s.processes[pid])
      then Moved(s, pid, (Act(c, s.shared, s.processes[pid]).0, Failed(StoreError))) else s
  }

  function Moved(s: State, pid: nat, move: (Shared, Process)): State {
    State(move.0, s.processes[pid := move.1])
  }

  function Run(c: Config, s: State, schedule: seq<Step>): State
    decreases |schedule|
  {
    if schedule == [] then s
    else Apply(c, Run(c, s, schedule[..|schedule| - 1]), schedule[|schedule| - 1])
  }
}
