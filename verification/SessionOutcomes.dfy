/**
How every call of the session service goes on from every reachable state, told
by the session's history: which tokens are accepted, which are handed out
again, when a rotation follows, and when access is denied.
*/
module SessionOutcomes {
  import opened SessionStore
  import opened SessionProtocol
  import opened SessionInvariant
  import opened SessionTheorems

  /** Before the end of the retry window behind the rotation that replaced a generation. */
  predicate InWindow(c: Config, life: Life, generation: int, at: int)
    requires 1 <= generation < Top(life)
  {
    at < ReplacedAt(life, generation) + Window(c)
  }

  /** The token of one generation: nothing but the generation differs from the one issued first. */
  function TokenAt(life: Life, generation: int): SessionToken {
    SessionToken(life.birth.identity.session, generation, life.birth.expiredAt, life.birth.rememberMe)
  }

  lemma GenerationIsBounded(c: Config, life: Life, nowMillis: int)
    requires ValidConfig(c) && BirthOk(c, life.birth, nowMillis) && Spaced(c, life, nowMillis)
    ensures Top(life) < MAX_INT64
  {
    hide Lasts;
    var n := |life.history|;
    if n > 0 {
      StampsApart(c, life, nowMillis, 0, n - 1);
      AtLeastOnePer(n - 1, Window(c));
    }
  }

  // ----- ReadRefresh -----

  /** A token is good while it is the newest one read, or the one before it inside its retry window. */
  predicate Good(c: Config, life: Life, seen: int, generation: int, receivedAt: int)
    requires 1 <= seen <= Top(life)
  {
    || generation == seen
    || (1 <= generation == seen - 1 && InWindow(c, life, generation, receivedAt))
  }

  lemma AcceptedByHistory(c: Config, life: Life, nowMillis: int, seen: int, generation: int, receivedAt: int)
    requires ValidConfig(c) && BirthOk(c, life.birth, nowMillis) && Spaced(c, life, nowMillis)
    requires 1 <= seen <= Top(life) && 0 < generation
    ensures Judge(c, Snapshot(life, seen), generation, receivedAt) == Accept
       <==> Good(c, life, seen, generation, receivedAt)
  {
    hide Lasts;
    GenerationIsBounded(c, life, nowMillis);
  }

  ghost predicate ReadOutcome(c: Config, life: Life, nowMillis: int, p: Process, next: Process)
    requires p.Fetched? && 1 <= p.record.generation <= Top(life) && p.generation > 0
  {
    var g, seen := p.generation, p.record.generation;
    if life.birth.expiredAt <= nowMillis then next == Failed(Denied)
    else if Good(c, life, seen, g, p.receivedAt) then next == Accepted(p.record, g)
    else if g < seen && OutlivedWindow(c, life, g, seen, p.receivedAt) then
      next == Punishing(p.session, g, p.receivedAt, p.wasCurrent)
    else next == Failed(Denied)
  }

  lemma HeldDecodes(c: Config, sh: Shared, r: Record)
    requires ValidConfig(c) && SharedOk(c, sh) && Held(sh, r)
    ensures var life := sh.lives[r.identity.session];
            && life.birth.identity.session == r.identity.session
            && BirthOk(c, life.birth, Milli(sh.now)) && Spaced(c, life, Milli(sh.now))
            && (Decodes(r, Milli(sh.now)) <==> life.birth.expiredAt > Milli(sh.now))
  {
    hide Lasts;
    assert LifeOk(c, sh, r.identity.session, sh.lives[r.identity.session]);
  }

  lemma ReadDecidesHere(c: Config, sh: Shared, pid: nat, p: Process)
    requires ValidConfig(c) && SharedOk(c, sh) && p.Fetched? && ProcessOk(c, sh, pid, p)
    ensures Act(c, sh, p).0 == sh
    ensures ReadOutcome(c, sh.lives[p.session], Milli(sh.now), p, Act(c, sh, p).1)
  {
    hide SharedOk, BirthOk, Spaced, Decodes, Judge, Good, InWindow, ReplacedAt;
    var life := sh.lives[p.session];
    HeldDecodes(c, sh, p.record);
    AcceptedByHistory(c, life, Milli(sh.now), p.record.generation, p.generation, p.receivedAt);
    VerdictByHistory(c, life, Milli(sh.now), p.record.generation, p.generation, p.receivedAt);
    hide OutlivedWindow;
  }

  /** A read sees the newest record of a session that is still there, and otherwise denies. */
  predicate Seen(sh: Shared, id: SessionId) {
    id in sh.store && sh.store[id].expiredAt > sh.now
  }

  lemma ReadSeesHere(c: Config, sh: Shared, pid: nat, p: Process)
    requires ValidConfig(c) && SharedOk(c, sh) && p.Reading?
    ensures if Seen(sh, p.session)
            then p.session in sh.lives &&
                 Act(c, sh, p).1 == Fetched(p.session, p.generation, p.receivedAt, p.wasCurrent,
                                            Snapshot(sh.lives[p.session], Top(sh.lives[p.session])))
            else Act(c, sh, p).1 == Failed(Denied)
    ensures Visible(Act(c, sh, p).0.store, sh.now) == Visible(sh.store, sh.now)
    ensures Act(c, sh, p).0.(store := sh.store) == sh
  {
    hide LifeOk;
    assert p.session in sh.store ==> StoredOk(sh, p.session, sh.store[p.session]);
  }

  // ----- Renew -----

  /**
  A refresh of generation g is answered with the newest token when that is
  generation g + 1, or g itself inside its retry window; it rotates when the
  newest is g outside the window, and is denied when the session moved further.
  */
  ghost predicate RenewOutcome(c: Config, life: Life, nowMillis: int, p: Process, next: Process)
    requires p.RenewDecoded?
  {
    var g, newest := p.refreshed, p.current.generation;
    && 1 <= g <= newest <= Top(life)
    && next == if newest == g + 1 || (newest == g && g > 1 && InWindow(c, life, g - 1, nowMillis))
               then Holding(p.record.identity.session, g, TokenAt(life, newest))
               else if newest == g then RenewStamping(p.record, g, p.identity, p.pass, p.current)
               else Failed(Denied)
  }

  lemma RenewDecidesHere(c: Config, sh: Shared, pid: nat, p: Process)
    requires ValidConfig(c) && SharedOk(c, sh) && p.RenewDecoded? && ProcessOk(c, sh, pid, p)
    ensures Act(c, sh, p).0 == sh
    ensures p.record.identity.session in sh.lives
    ensures RenewOutcome(c, sh.lives[p.record.identity.session], Milli(sh.now), p, Act(c, sh, p).1)
  {
    hide SharedOk, Lasts, Decodes;
    var life := sh.lives[p.record.identity.session];
    HeldDecodes(c, sh, p.current);
    GenerationIsBounded(c, life, Milli(sh.now));
  }

  lemma RenewReadsHere(c: Config, sh: Shared, pid: nat, p: Process)
    requires ValidConfig(c) && SharedOk(c, sh) && p.RenewReading? && ProcessOk(c, sh, pid, p)
    ensures p.record.identity.session in sh.lives
    ensures var id := p.record.identity.session;
            Act(c, sh, p).1 ==
            if Seen(sh, id)
            then RenewFetched(p.record, p.refreshed, p.identity, p.pass, Snapshot(sh.lives[id], Top(sh.lives[id])))
            else Failed(Denied)
    ensures Visible(Act(c, sh, p).0.store, sh.now) == Visible(sh.store, sh.now)
    ensures Act(c, sh, p).0.(store := sh.store) == sh
  {
    hide LifeOk, CurrentOk, RotateOk;
    var id := p.record.identity.session;
    assert id in sh.store ==> StoredOk(sh, id, sh.store[id]);
  }

  lemma RenewDecodesHere(c: Config, sh: Shared, pid: nat, p: Process)
    requires ValidConfig(c) && SharedOk(c, sh) && p.RenewFetched? && ProcessOk(c, sh, pid, p)
    ensures p.record.identity.session in sh.lives
    ensures Act(c, sh, p) ==
            (sh, if sh.lives[p.record.identity.session].birth.expiredAt <= Milli(sh.now) then Failed(Denied)
                 else RenewDecoded(p.record, p.refreshed, p.identity, p.pass, p.current))
  {
    hide SharedOk, BirthOk, Spaced, Decodes;
    HeldDecodes(c, sh, p.current);
  }

  /** A committed rotation appends to the history, and the stored record and the token are those of the new end. */
  ghost predicate RotateOutcome(sh: Shared, p: Process, after: Shared, next: Process)
    requires p.RenewRotating? && p.record.identity.session in sh.lives
  {
    var id := p.record.identity.session;
    var life := sh.lives[id];
    if Seen(sh, id) && Top(life) == p.refreshed then
      var grown := life.(history := life.history + [Rotation(p.next.rotatedAt, Milli(sh.now))]);
      && next == Holding(id, p.refreshed, TokenAt(grown, p.refreshed + 1))
      && after == sh.(store := sh.store[id := Stored(Snapshot(grown, p.refreshed + 1), sh.store[id].expiredAt)],
                      lives := sh.lives[id := grown])
    else
      && next == RenewReading(p.record, p.refreshed, p.identity, 1)
      && Visible(after.store, sh.now) == Visible(sh.store, sh.now)
      && after.(store := sh.store) == sh
  }

  lemma OneSnapshotEach(life: Life, a: int, b: int)
    requires 1 <= a <= Top(life) && 1 <= b <= Top(life)
    ensures Snapshot(life, a) == Snapshot(life, b) <==> a == b
  {
  }

  lemma GrownSnapshot(life: Life, next: Record, at: int)
    requires next == Snapshot(life, Top(life)).(generation := Top(life) + 1, rotatedAt := next.rotatedAt)
    ensures var grown := life.(history := life.history + [Rotation(next.rotatedAt, at)]);
            Top(grown) == Top(life) + 1 && Snapshot(grown, Top(grown)) == next
  {
  }

  lemma RotateDecidesHere(c: Config, sh: Shared, pid: nat, p: Process)
    requires ValidConfig(c) && SharedOk(c, sh) && p.RenewRotating? && ProcessOk(c, sh, pid, p)
    ensures p.record.identity.session in sh.lives
    ensures RotateOutcome(sh, p, Act(c, sh, p).0, Act(c, sh, p).1)
  {
    hide BirthOk, Spaced, LifeOk;
    var id := p.record.identity.session;
    var life := sh.lives[id];
    HeldDecodes(c, sh, p.current);
    assert id in sh.store ==> StoredOk(sh, id, sh.store[id]);
    hide SharedOk, Decodes, ArrivalOk;
    OneSnapshotEach(life, p.current.generation, Top(life));
    if Seen(sh, id) && Top(life) == p.refreshed {
      GrownSnapshot(life, p.next, Milli(sh.now));
    }
  }

  // ----- Over every schedule -----

  /** What the next action of ReadRefresh does from any reachable state. */
  lemma ReadRefreshDecides(c: Config, now: nat, schedule: seq<Step>, pid: nat)
    requires Start(c, now)
    requires pid in Run(c, Initial(now), schedule).processes
    ensures var s := Run(c, Initial(now), schedule);
            var p, next := s.processes[pid], Act(c, s.shared, s.processes[pid]).1;
            && (p.Reading? ==>
                  if Seen(s.shared, p.session)
                  then p.session in s.shared.lives &&
                       var life := s.shared.lives[p.session];
                       next == Fetched(p.session, p.generation, p.receivedAt, p.wasCurrent, Snapshot(life, Top(life)))
                  else next == Failed(Denied))
            && (p.Fetched? ==>
                  && p.session in s.shared.lives && 1 <= p.generation
                  && 1 <= p.record.generation <= Top(s.shared.lives[p.session])
                  && ReadOutcome(c, s.shared.lives[p.session], Milli(s.shared.now), p, next))
  {
    Reached(c, now, schedule);
    var s := Run(c, Initial(now), schedule);
    var p := s.processes[pid];
    assert ProcessOk(c, s.shared, pid, p);
    if p.Reading? {
      ReadSeesHere(c, s.shared, pid, p);
    } else if p.Fetched? {
      ReadDecidesHere(c, s.shared, pid, p);
    }
  }

  /** What the next action of Renew does from any reachable state; a failed compare-and-set reads once more. */
  ghost predicate RenewGoesOn(c: Config, sh: Shared, p: Process, after: Shared, next: Process)
    requires p.RenewReading? || p.RenewFetched? || p.RenewDecoded? || p.RenewStamping? || p.RenewRotating?
  {
    var id := p.record.identity.session;
    && id in sh.lives
    && var life := sh.lives[id];
       match p
       case RenewReading(record, refreshed, identity, pass) =>
         next == if Seen(sh, id) then RenewFetched(record, refreshed, identity, pass, Snapshot(life, Top(life)))
                 else Failed(Denied)
       case RenewFetched(record, refreshed, identity, pass, current) =>
         next == if life.birth.expiredAt > Milli(sh.now)
                 then RenewDecoded(record, refreshed, identity, pass, current) else Failed(Denied)
       case RenewDecoded(_, _, _, _, _) => RenewOutcome(c, life, Milli(sh.now), p, next)
       case RenewStamping(record, refreshed, identity, pass, current) =>
         next == RenewRotating(record, refreshed, identity, pass, current,
                               Record(current.identity, current.rememberMe, refreshed + 1, current.createdAt,
                                      current.expiredAt, Milli(sh.now)))
       case RenewRotating(_, _, _, _, _, _) => RotateOutcome(sh, p, after, next)
  }

  lemma RenewDecides(c: Config, now: nat, schedule: seq<Step>, pid: nat)
    requires Start(c, now)
    requires pid in Run(c, Initial(now), schedule).processes
    requires var p := Run(c, Initial(now), schedule).processes[pid];
             p.RenewReading? || p.RenewFetched? || p.RenewDecoded? || p.RenewStamping? || p.RenewRotating?
    ensures var s := Run(c, Initial(now), schedule);
            var move := Act(c, s.shared, s.processes[pid]);
            RenewGoesOn(c, s.shared, s.processes[pid], move.0, move.1)
  {
    Reached(c, now, schedule);
    var s := Run(c, Initial(now), schedule);
    RenewGoesOnHere(c, s.shared, pid, s.processes[pid]);
  }

  lemma RenewGoesOnHere(c: Config, sh: Shared, pid: nat, p: Process)
    requires p.RenewReading? || p.RenewFetched? || p.RenewDecoded? || p.RenewStamping? || p.RenewRotating?
    requires ValidConfig(c) && SharedOk(c, sh) && ProcessOk(c, sh, pid, p)
    ensures RenewGoesOn(c, sh, p, Act(c, sh, p).0, Act(c, sh, p).1)
  {
    match p {
      case RenewReading(_, _, _, _) => RenewReadsHere(c, sh, pid, p);
      case RenewFetched(_, _, _, _, _) => RenewDecodesHere(c, sh, pid, p);
      case RenewDecoded(_, _, _, _, _) => RenewDecidesHere(c, sh, pid, p);
      case RenewStamping(_, _, _, _, _) =>
      case RenewRotating(_, _, _, _, _, _) => RotateDecidesHere(c, sh, pid, p);
    }
    hide SharedOk, RenewOutcome, RotateOutcome, Snapshot, ActRotate, Decide;
  }

  /** A renewal is only begun by the identity that was accepted. */
  lemma RenewStarts(c: Config, now: nat, schedule: seq<Step>, pid: nat, reader: nat, identity: Identity)
    requires Start(c, now)
    requires var s := Run(c, Initial(now), schedule);
             pid !in s.processes && reader in s.processes && s.processes[reader].Accepted?
    ensures var s := Run(c, Initial(now), schedule);
            var accepted := s.processes[reader];
            && accepted.record.identity.session in s.shared.lives
            && Apply(c, s, StartRenew(pid, reader, identity)).processes[pid] ==
               if identity == s.shared.lives[accepted.record.identity.session].birth.identity
               then RenewReading(accepted.record, accepted.refreshed, identity, 0) else Failed(Denied)
  {
    Reached(c, now, schedule);
    var s := Run(c, Initial(now), schedule);
    assert ProcessOk(c, s.shared, reader, s.processes[reader]);
  }

  /** Every session that exists was created for the lifetime its remember flag chose, and is stored until then. */
  lemma SessionsLast(c: Config, now: nat, schedule: seq<Step>, id: SessionId)
    requires Start(c, now)
    ensures var sh := Run(c, Initial(now), schedule).shared;
            && (id in sh.lives ==> Lasts(c, sh.lives[id].birth))
            && (id in sh.store ==>
                  && Lasts(c, sh.store[id].value)
                  && sh.store[id].expiredAt == sh.store[id].value.expiredAt * NANOS_PER_MILLI)
  {
    Reached(c, now, schedule);
    var sh := Run(c, Initial(now), schedule).shared;
    if id in sh.lives {
      assert LifeOk(c, sh, id, sh.lives[id]);
    }
    if id in sh.store {
      assert StoredOk(sh, id, sh.store[id]);
      SnapshotLasts(c, sh.lives[id], Top(sh.lives[id]));
    }
  }

  lemma SnapshotLasts(c: Config, life: Life, generation: int)
    requires 1 <= generation <= Top(life) && Lasts(c, life.birth)
    ensures Lasts(c, Snapshot(life, generation))
  {
  }

  // ----- Issue and Revoke -----

  /** A session is issued exactly while its deadline is ahead and the store has room for one more. */
  ghost predicate IssueOutcome(c: Config, sh: Shared, record: Record, after: Shared, next: Process) {
    var id := record.identity.session;
    if record.expiredAt > Milli(sh.now) && |Visible(sh.store, sh.now)| < c.capacity then
      && next == Issued(TokenAt(Life(record, []), 1))
      && id in after.store && after.store[id] == Stored(record, record.expiredAt * NANOS_PER_MILLI)
      && Visible(after.store - {id}, sh.now) == Visible(sh.store, sh.now)
      && after.(store := sh.store) == sh.(lives := sh.lives[id := Life(record, [])])
    else
      && next == Failed(StoreError)
      && Visible(after.store, sh.now) == Visible(sh.store, sh.now)
      && after.(store := sh.store) == sh
  }

  lemma IssueDecidesHere(c: Config, sh: Shared, pid: nat, p: Process)
    requires ValidConfig(c) && SharedOk(c, sh) && p.Issuing? && ProcessOk(c, sh, pid, p)
    ensures IssueOutcome(c, sh, p.record, Act(c, sh, p).0, Act(c, sh, p).1)
  {
    NewSessionIsNotStored(c, sh, pid, p.record);
    hide SharedOk, BirthOk;
    CreateIssues(c, sh, p.record);
  }

  lemma NewSessionIsNotStored(c: Config, sh: Shared, pid: nat, record: Record)
    requires SharedOk(c, sh) && ProcessOk(c, sh, pid, Issuing(record))
    ensures record.identity.session !in sh.store && record.generation == 1 && record.expiredAt > 0
  {
    var id := record.identity.session;
    assert id in sh.store ==> StoredOk(sh, id, sh.store[id]);
  }

  lemma CreateIssues(c: Config, sh: Shared, record: Record)
    requires record.identity.session !in sh.store && record.generation == 1 && record.expiredAt > 0
    ensures IssueOutcome(c, sh, record, ActCreate(c, sh, record).0, ActCreate(c, sh, record).1)
  {
    hide CreateEntry, Visible;
    var id, deadline := record.identity.session, Deadline(record);
    IsVisible(sh.store, id, sh.now);
    DeadlineInMillis(record.expiredAt, sh.now);
    CreateDecides(sh.store, c.capacity, id, record, deadline, sh.now);
    if CreateEntry(sh.store, c.capacity, id, record, deadline, sh.now).0 == Done {
      CreateShowsEntry(sh.store, c.capacity, id, record, deadline, sh.now, sh.now);
      assert sh.store - {id} == sh.store;
    } else {
      RefusedCreateIsInvisible(sh.store, c.capacity, id, record, deadline, sh.now, sh.now);
    }
  }

  /** What the store calls of Issue, Revoke and a punished replay do from any reachable state. */
  lemma IssueAndRevokeDecide(c: Config, now: nat, schedule: seq<Step>, pid: nat)
    requires Start(c, now)
    requires pid in Run(c, Initial(now), schedule).processes
    ensures var s := Run(c, Initial(now), schedule);
            var p, move := s.processes[pid], Act(c, s.shared, s.processes[pid]);
            && (p.Issuing? ==> IssueOutcome(c, s.shared, p.record, move.0, move.1))
            && (p.Revoking? || p.Punishing? ==>
                  && move.0 == s.shared.(store := s.shared.store - {p.session})
                  && move.1 == if p.Revoking? then Finished else Failed(Denied))
  {
    Reached(c, now, schedule);
    var s := Run(c, Initial(now), schedule);
    assert ProcessOk(c, s.shared, pid, s.processes[pid]);
    if s.processes[pid].Issuing? {
      IssueDecidesHere(c, s.shared, pid, s.processes[pid]);
    }
  }

  // ----- A whole refresh that nobody disturbs -----

  /** The steps of one ReadRefresh and one Renew; a call that has ended makes no further move. */
  function Refreshing(a: nat, b: nat, id: SessionId, generation: int, identity: Identity): seq<Step> {
    [StartRead(a, id, generation), Advance(a), Advance(a), StartRenew(b, a, identity), Advance(b), Advance(b),
     Advance(b), Advance(b), Advance(b)]
  }

  function Then(c: Config, s: State, one: Step, two: Step, three: Step): State {
    Apply(c, Apply(c, Apply(c, s, one), two), three)
  }

  lemma ThreeSteps(c: Config, s: State, one: Step, two: Step, three: Step)
    ensures Run(c, s, [one, two, three]) == Then(c, s, one, two, three)
  {
    assert [one, two, three][..2] == [one, two] && [one, two][..1] == [one] && [one][..0] == [];
    assert Run(c, s, [one]) == Apply(c, Run(c, s, []), one);
  }

  lemma ThenKeeps(c: Config, s: State, one: Step, two: Step, three: Step)
    requires Inv(c, s)
    ensures Inv(c, Then(c, s, one, two, three))
  {
    hide Inv, Apply;
    ApplyKeeps(c, s, one);
    ApplyKeeps(c, Apply(c, s, one), two);
    ApplyKeeps(c, Apply(c, Apply(c, s, one), two), three);
  }

  lemma NewestIsStored(c: Config, sh: Shared, id: SessionId)
    requires ValidConfig(c) && SharedOk(c, sh) && Seen(sh, id)
    ensures id in sh.lives && sh.store[id].value == Snapshot(sh.lives[id], Top(sh.lives[id]))
    ensures Held(sh, sh.store[id].value) && sh.store[id].value.identity == sh.lives[id].birth.identity
    ensures sh.lives[id].birth.identity.session == id && sh.lives[id].birth.expiredAt > Milli(sh.now)
  {
    assert StoredOk(sh, id, sh.store[id]) && LifeOk(c, sh, id, sh.lives[id]);
    hide BirthOk, Spaced, SharedOk;
    DeadlineInMillis(sh.lives[id].birth.expiredAt, sh.now);
  }

  /** Reading a good token ends in its acceptance and changes nothing else. */
  lemma ReadsGoodToken(c: Config, s: State, a: nat, id: SessionId, g: int)
    requires Inv(c, s) && a !in s.processes && Seen(s.shared, id) && id in s.shared.lives && g > 0
    requires Good(c, s.shared.lives[id], Top(s.shared.lives[id]), g, Milli(s.shared.now))
    ensures Then(c, s, StartRead(a, id, g), Advance(a), Advance(a)) ==
            s.(processes := s.processes[a := Accepted(s.shared.store[id].value, g)])
  {
    hide Inv, ProcessOk, SharedOk, Good, Snapshot, Judge, Decodes;
    var sh := s.shared;
    NewestHere(c, s, id);
    var newest := IsNewest(sh, id, g);
    var s1, s2 := Apply(c, s, StartRead(a, id, g)), Apply(c, Apply(c, s, StartRead(a, id, g)), Advance(a));
    assert s1 == s.(processes := s.processes[a := Reading(id, g, Milli(sh.now), newest)]);
    var fetched := Fetched(id, g, Milli(sh.now), newest, sh.store[id].value);
    assert s2 == s.(processes := s.processes[a := fetched]);
    ApplyKeeps(c, s, StartRead(a, id, g));
    ApplyKeeps(c, s1, Advance(a));
    InvHere(c, s2, a);
    ReadDecidesHere(c, sh, a, fetched);
  }

  /** The start of the renewal: the newest record is read and decoded. */
  lemma BeginsRenewal(c: Config, s: State, a: nat, b: nat, id: SessionId, g: int)
    requires Inv(c, s) && a in s.processes && b !in s.processes && Seen(s.shared, id)
    requires s.processes[a] == Accepted(s.shared.store[id].value, g)
    ensures id in s.shared.lives
    ensures var record := s.shared.store[id].value;
            Then(c, s, StartRenew(b, a, s.shared.lives[id].birth.identity), Advance(b), Advance(b)) ==
            s.(processes := s.processes[b := RenewDecoded(record, g, record.identity, 0, record)])
  {
    hide Inv, ProcessOk, SharedOk, Snapshot, Decodes;
    var sh := s.shared;
    NewestHere(c, s, id);
    var record, identity := sh.store[id].value, sh.lives[id].birth.identity;
    InvHere(c, s, a);
    assert g > 0 by { AcceptedIsPositive(c, s, a); }
    HeldDecodes(c, sh, record);
    var s1, s2 := Apply(c, s, StartRenew(b, a, identity)),
        Apply(c, Apply(c, s, StartRenew(b, a, identity)), Advance(b));
    assert s1 == s.(processes := s.processes[b := RenewReading(record, g, identity, 0)]);
    assert s2 == s.(processes := s.processes[b := RenewFetched(record, g, identity, 0, record)]);
  }

  /** The answer of an undisturbed refresh: the newest token again, or the next one after a rotation. */
  ghost predicate Refreshed(c: Config, sh: Shared, id: SessionId, g: int, after: Shared, answer: Process)
    requires id in sh.lives
  {
    var life := sh.lives[id];
    var top := Top(life);
    if g == top - 1 || (g == top && g > 1 && InWindow(c, life, g - 1, Milli(sh.now))) then
      answer == Holding(id, g, TokenAt(life, top)) && after == sh
    else
      && g == top
      && answer == Holding(id, g, TokenAt(life, top + 1))
      && id in after.lives
      && after.lives == sh.lives[id := life.(history := life.history + [Rotation(Milli(sh.now), Milli(sh.now))])]
  }

  lemma EndsRenewal(c: Config, s: State, b: nat, id: SessionId, g: int)
    requires Inv(c, s) && b in s.processes && Seen(s.shared, id) && id in s.shared.lives
    requires s.processes[b] == RenewDecoded(s.shared.store[id].value, g, s.shared.lives[id].birth.identity, 0,
                                            s.shared.store[id].value)
    requires var top := Top(s.shared.lives[id]); g == top || g == top - 1
    ensures var end := Then(c, s, Advance(b), Advance(b), Advance(b));
            b in end.processes && Refreshed(c, s.shared, id, g, end.shared, end.processes[b])
  {
    hide Inv, ProcessOk, SharedOk, Decide, InWindow, Snapshot, TokenAt;
    var sh, p := s.shared, s.processes[b];
    var s1 := Apply(c, s, Advance(b));
    NewestHere(c, s, id);
    InvHere(c, s, b);
    RenewDecidesHere(c, sh, b, p);
    assert s1.shared == sh;
    ApplyKeeps(c, s, Advance(b));
    if s1.processes[b].RenewStamping? {
      RotatesUndisturbed(c, s1, b, id, g);
    } else {
      assert s1.processes[b := s1.processes[b]] == s1.processes;
      assert Apply(c, s1, Advance(b)) == s1;
    }
  }

  lemma InvHere(c: Config, s: State, pid: nat)
    requires Inv(c, s) && pid in s.processes
    ensures ValidConfig(c) && SharedOk(c, s.shared) && ProcessOk(c, s.shared, pid, s.processes[pid])
  {
  }

  lemma RotatesUndisturbed(c: Config, s: State, b: nat, id: SessionId, g: int)
    requires Inv(c, s) && b in s.processes && s.processes[b].RenewStamping? && Seen(s.shared, id)
    requires s.processes[b].record.identity.session == id && s.processes[b].refreshed == g
    requires id in s.shared.lives && g == Top(s.shared.lives[id])
    ensures var end, life := Apply(c, Apply(c, s, Advance(b)), Advance(b)), s.shared.lives[id];
            && b in end.processes && end.processes[b] == Holding(id, g, TokenAt(life, g + 1))
            && end.shared.lives == s.shared.lives[id := life.(history := life.history +
                                                                         [Rotation(Milli(s.shared.now),
                                                                                   Milli(s.shared.now))])]
  {
    hide Inv, ProcessOk, SharedOk, Snapshot, ActRotate;
    var sh := s.shared;
    var s1 := Apply(c, s, Advance(b));
    assert s1.shared == sh && s1.processes[b].RenewRotating?;
    ApplyKeeps(c, s, Advance(b));
    InvHere(c, s1, b);
    RotateDecidesHere(c, sh, b, s1.processes[b]);
  }

  /**
  From every reachable state, a refresh with a good token that nobody disturbs
  is answered: inside the retry window with the newest token, unchanged, and
  otherwise with the token of exactly one new rotation.
  */
  lemma UndisturbedRefresh(c: Config, now: nat, schedule: seq<Step>, a: nat, b: nat, id: SessionId, g: int)
    requires Start(c, now)
    requires var s := Run(c, Initial(now), schedule);
             && a !in s.processes && b !in s.processes && a != b
             && Seen(s.shared, id) && id in s.shared.lives && g > 0
             && Good(c, s.shared.lives[id], Top(s.shared.lives[id]), g, Milli(s.shared.now))
    ensures var s := Run(c, Initial(now), schedule);
            var steps := Refreshing(a, b, id, g, s.shared.lives[id].birth.identity);
            var end := Run(c, Initial(now), schedule + steps);
            b in end.processes && Refreshed(c, s.shared, id, g, end.shared, end.processes[b])
  {
    hide *;
    Reached(c, now, schedule);
    var s := Run(c, Initial(now), schedule);
    var identity := s.shared.lives[id].birth.identity;
    var read := Then(c, s, StartRead(a, id, g), Advance(a), Advance(a));
    ReadsGoodToken(c, s, a, id, g);
    ThenKeeps(c, s, StartRead(a, id, g), Advance(a), Advance(a));
    var decoded := Then(c, read, StartRenew(b, a, identity), Advance(b), Advance(b));
    NewestHere(c, s, id);
    GoodIsNear(c, s.shared.lives[id], Top(s.shared.lives[id]), g, Milli(s.shared.now));
    BeginsRenewal(c, read, a, b, id, g);
    ThenKeeps(c, read, StartRenew(b, a, identity), Advance(b), Advance(b));
    EndsRenewal(c, decoded, b, id, g);
    NineSteps(c, s, a, b, id, g, identity);
    RunSplits(c, Initial(now), schedule, Refreshing(a, b, id, g, identity));
  }

  lemma GoodIsNear(c: Config, life: Life, seen: int, generation: int, at: int)
    requires 1 <= seen <= Top(life) && Good(c, life, seen, generation, at)
    ensures generation == seen || generation == seen - 1
  {
  }

  lemma NewestHere(c: Config, s: State, id: SessionId)
    requires Inv(c, s) && Seen(s.shared, id)
    ensures id in s.shared.store && id in s.shared.lives
    ensures s.shared.store[id].value.identity == s.shared.lives[id].birth.identity
    ensures s.shared.store[id].value == Snapshot(s.shared.lives[id], Top(s.shared.lives[id]))
    ensures s.shared.store[id].value.generation == Top(s.shared.lives[id])
    ensures Held(s.shared, s.shared.store[id].value)
    ensures s.shared.lives[id].birth.identity.session == id
    ensures s.shared.lives[id].birth.expiredAt > Milli(s.shared.now)
  {
    NewestIsStored(c, s.shared, id);
  }

  lemma AcceptedIsPositive(c: Config, s: State, a: nat)
    requires Inv(c, s) && a in s.processes && s.processes[a].Accepted?
    ensures s.processes[a].refreshed > 0
  {
    InvHere(c, s, a);
  }

  lemma NineSteps(c: Config, s: State, a: nat, b: nat, id: SessionId, g: int, identity: Identity)
    ensures var read := Then(c, s, StartRead(a, id, g), Advance(a), Advance(a));
            var decoded := Then(c, read, StartRenew(b, a, identity), Advance(b), Advance(b));
            Run(c, s, Refreshing(a, b, id, g, identity)) == Then(c, decoded, Advance(b), Advance(b), Advance(b))
  {
    hide Apply, Then;
    var one, two := [StartRead(a, id, g), Advance(a), Advance(a)], [StartRenew(b, a, identity), Advance(b), Advance(b)];
    var three := [Advance(b), Advance(b), Advance(b)];
    assert Refreshing(a, b, id, g, identity) == one + two + three;
    RunSplits(c, s, one + two, three);
    RunSplits(c, s, one, two);
    ThreeSteps(c, s, one[0], one[1], one[2]);
    var read := Run(c, s, one);
    ThreeSteps(c, read, two[0], two[1], two[2]);
    ThreeSteps(c, Run(c, read, two), three[0], three[1], three[2]);
  }

  /**
  A valid identity is issued the first token of a new session while the store
  has room, to end after the lifetime that was asked for; nobody else is.
  */
  lemma UndisturbedIssue(c: Config, now: nat, schedule: seq<Step>, pid: nat, id: SessionId, identity: Identity,
                         rememberMe: bool)
    requires Start(c, now)
    requires var s := Run(c, Initial(now), schedule); pid !in s.processes && id !in s.shared.drawn
    ensures var s := Run(c, Initial(now), schedule);
            var end := Run(c, Initial(now), schedule + [StartIssue(pid, id, identity, rememberMe), Advance(pid)]);
            var lifetime := if rememberMe then c.rememberLifetime else c.sessionLifetime;
            && pid in end.processes
            && end.processes[pid] ==
               if !ValidIdentity(identity) then Failed(Denied)
               else if |Visible(s.shared.store, s.shared.now)| >= c.capacity then Failed(StoreError)
               else Issued(SessionToken(id, 1, (s.shared.now + lifetime) / NANOS_PER_MILLI, rememberMe))
  {
    hide *;
    Reached(c, now, schedule);
    var s := Run(c, Initial(now), schedule);
    var start := StartIssue(pid, id, identity, rememberMe);
    RunSplits(c, Initial(now), schedule, [start, Advance(pid)]);
    TwoSteps(c, s, start, Advance(pid));
    IssuesHere(c, s, pid, id, identity, rememberMe);
  }

  lemma TwoSteps(c: Config, s: State, one: Step, two: Step)
    ensures Run(c, s, [one, two]) == Apply(c, Apply(c, s, one), two)
  {
    hide Apply;
    assert [one, two][..1] == [one] && [one][..0] == [];
    assert Run(c, s, [one]) == Apply(c, Run(c, s, []), one);
  }

  lemma IssuesHere(c: Config, s: State, pid: nat, id: SessionId, identity: Identity, rememberMe: bool)
    requires Inv(c, s) && pid !in s.processes && id !in s.shared.drawn
    ensures var end := Apply(c, Apply(c, s, StartIssue(pid, id, identity, rememberMe)), Advance(pid));
            var lifetime := if rememberMe then c.rememberLifetime else c.sessionLifetime;
            && pid in end.processes
            && end.processes[pid] ==
               if !ValidIdentity(identity) then Failed(Denied)
               else if |Visible(s.shared.store, s.shared.now)| >= c.capacity then Failed(StoreError)
               else Issued(SessionToken(id, 1, (s.shared.now + lifetime) / NANOS_PER_MILLI, rememberMe))
  {
    hide SharedOk, ProcessOk, IssueOutcome, Visible, ValidIdentity, ActCreate, Inv;
    var start := StartIssue(pid, id, identity, rememberMe);
    var s1 := Apply(c, s, start);
    ApplyKeeps(c, s, start);
    InvHere(c, s1, pid);
    if ValidIdentity(identity) {
      ExpiryIsLater(s.shared.now, if rememberMe then c.rememberLifetime else c.sessionLifetime);
      IssueDecidesHere(c, s1.shared, pid, s1.processes[pid]);
      IssuedOrNot(c, s1.shared, s1.processes[pid].record, Act(c, s1.shared, s1.processes[pid]).0,
                  Act(c, s1.shared, s1.processes[pid]).1);
    }
  }

  lemma IssuedOrNot(c: Config, sh: Shared, record: Record, after: Shared, next: Process)
    requires IssueOutcome(c, sh, record, after, next) && record.expiredAt > Milli(sh.now)
    ensures next == if |Visible(sh.store, sh.now)| >= c.capacity then Failed(StoreError)
                    else Issued(SessionToken(record.identity.session, 1, record.expiredAt, record.rememberMe))
  {
  }

  // ----- What ends a session -----

  /** The step is the delete of a revocation or of a punished replay. */
  predicate Ends(s: State, step: Step, id: SessionId) {
    && (step.Advance? || step.Lose?) && step.pid in s.processes
    && var p := s.processes[step.pid];
       (p.Punishing? || p.Revoking?) && p.session == id
  }

  predicate StillStored(sh: Shared, sh': Shared, id: SessionId)
    requires id in sh.store
  {
    id in sh'.store && sh'.store[id].expiredAt == sh.store[id].expiredAt
  }

  lemma ActKeepsOthers(c: Config, sh: Shared, pid: nat, p: Process, id: SessionId)
    requires ValidConfig(c) && SharedOk(c, sh) && ProcessOk(c, sh, pid, p) && Seen(sh, id)
    requires (p.Punishing? || p.Revoking?) ==> p.session != id
    ensures StillStored(sh, Act(c, sh, p).0, id)
  {
    hide SharedOk, ProcessOk, Decide, Judge, Decodes, ActRotate, ActCreate;
    if p.Issuing? {
      NewSessionIsNotStored(c, sh, pid, p.record);
      CreateKeepsOthers(c, sh, p.record, id);
    } else if p.RenewRotating? {
      RotateDecidesHere(c, sh, pid, p);
      VisibleIsStored(sh, Act(c, sh, p).0, id);
    }
  }

  lemma VisibleIsStored(sh: Shared, sh': Shared, id: SessionId)
    requires Seen(sh, id)
    ensures Visible(sh'.store, sh.now) == Visible(sh.store, sh.now) ==> StillStored(sh, sh', id)
  {
    assert id in Visible(sh.store, sh.now);
  }

  lemma CreateKeepsOthers(c: Config, sh: Shared, record: Record, id: SessionId)
    requires Seen(sh, id) && record.identity.session !in sh.store
    ensures StillStored(sh, ActCreate(c, sh, record).0, id)
  {
  }

  /**
  A live session stays stored with its deadline through every step but the
  delete of a revocation or of a punished replay; neither cleaning up, nor a
  full store, nor anyone else's call removes it.
  */
  lemma OnlyDeletesEnd(c: Config, now: nat, schedule: seq<Step>, step: Step, id: SessionId)
    requires Start(c, now)
    requires var s := Run(c, Initial(now), schedule); Seen(s.shared, id) && !Ends(s, step, id)
    ensures var s := Run(c, Initial(now), schedule); StillStored(s.shared, Apply(c, s, step).shared, id)
  {
    hide Inv, Act, Issue, Renew;
    Reached(c, now, schedule);
    var s := Run(c, Initial(now), schedule);
    if (step.Advance? || step.Lose?) && step.pid in s.processes {
      InvHere(c, s, step.pid);
      ActKeepsOthers(c, s.shared, step.pid, s.processes[step.pid], id);
    } else if step.StartIssue? {
      IssueStoresNothing(c, s.shared, step.pid, step.id, step.identity, step.rememberMe);
    }
  }

  lemma IssueStoresNothing(c: Config, sh: Shared, pid: nat, id: SessionId, identity: Identity, rememberMe: bool)
    ensures Issue(c, sh, pid, id, identity, rememberMe).0.store == sh.store
  {
  }
}
