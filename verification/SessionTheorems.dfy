/**
What every interleaving of the session system guarantees.
*/
module SessionTheorems {
  import opened SessionStore
  import opened SessionProtocol
  import opened SessionInvariant

  /** The service starts with an empty store, at least one millisecond after the epoch. */
  predicate Start(c: Config, now: nat) {
    ValidConfig(c) && now >= NANOS_PER_MILLI
  }

  lemma Reached(c: Config, now: nat, schedule: seq<Step>)
    requires Start(c, now)
    ensures Inv(c, Run(c, Initial(now), schedule))
  {
    RunKeeps(c, Initial(now), schedule);
  }

  // ----- Replay -----

  /** A token that arrives less than a retry window after the stamp of the rotation that replaced it
      never makes ReadRefresh delete the session, however many newer rotations its read crossed. */
  lemma EarlyTokenIsNeverPunished(c: Config, now: nat, schedule: seq<Step>, pid: nat)
    requires Start(c, now)
    ensures var s := Run(c, Initial(now), schedule);
            pid in s.processes && s.processes[pid].Punishing? ==>
              var p := s.processes[pid];
              && p.session in s.shared.lives
              && 1 <= p.generation < Top(s.shared.lives[p.session])
              && ReplacedAt(s.shared.lives[p.session], p.generation) + Window(c) <= p.receivedAt
  {
    Reached(c, now, schedule);
    var s := Run(c, Initial(now), schedule);
    assert pid in s.processes ==> ProcessOk(c, s.shared, pid, s.processes[pid]);
  }

  /** A token that was the newest one on arrival can only be punished by a slow rotation: one whose
      compare-and-set came a full retry window after its stamp, with the arrival in between. */
  lemma CurrentTokenPunishedOnlyBySlowRotation(c: Config, now: nat, schedule: seq<Step>, pid: nat)
    requires Start(c, now)
    ensures var s := Run(c, Initial(now), schedule);
            pid in s.processes && s.processes[pid].Punishing? && s.processes[pid].wasCurrent ==>
              var p := s.processes[pid];
              && p.session in s.shared.lives
              && 1 <= p.generation < Top(s.shared.lives[p.session])
              && var rotation := s.shared.lives[p.session].history[p.generation - 1];
                 rotation.stamp + Window(c) <= p.receivedAt <= rotation.commit
  {
    Reached(c, now, schedule);
    var s := Run(c, Initial(now), schedule);
    assert pid in s.processes ==> ProcessOk(c, s.shared, pid, s.processes[pid]);
  }

  /** Every rotation commits within a retry window of its stamp. */
  ghost predicate Prompt(c: Config, sh: Shared) {
    forall id, k {:trigger sh.lives[id].history[k]} :: id in sh.lives && 0 <= k < |sh.lives[id].history| ==>
      sh.lives[id].history[k].commit < sh.lives[id].history[k].stamp + Window(c)
  }

  /** With prompt rotations a token that was the newest one when it arrived is never punished as a replay. */
  lemma CurrentTokenIsNeverPunished(c: Config, now: nat, schedule: seq<Step>, pid: nat)
    requires Start(c, now)
    requires Prompt(c, Run(c, Initial(now), schedule).shared)
    ensures var s := Run(c, Initial(now), schedule);
            pid in s.processes && s.processes[pid].Punishing? ==> !s.processes[pid].wasCurrent
  {
    CurrentTokenPunishedOnlyBySlowRotation(c, now, schedule, pid);
  }

  /** Exactly when a fetched record gets its family deleted: the record decodes, the token has been replaced,
      it arrived a full window after the stamp that replaced it, and not before the newest stamp seen. */
  lemma PunishedExactly(c: Config, now: nat, schedule: seq<Step>, pid: nat)
    requires Start(c, now)
    requires var s := Run(c, Initial(now), schedule); pid in s.processes && s.processes[pid].Fetched?
    ensures var s := Run(c, Initial(now), schedule);
            var p := s.processes[pid];
            && p.generation >= 1
            && p.record.identity.session in s.shared.lives
            && p.record.generation <= Top(s.shared.lives[p.record.identity.session])
            && (Act(c, s.shared, p).1.Punishing?
                <==> && Decodes(p.record, Milli(s.shared.now)) && p.record.identity.session == p.session
                     && p.generation < p.record.generation
                     && OutlivedWindow(c, s.shared.lives[p.record.identity.session], p.generation,
                                       p.record.generation, p.receivedAt))
  {
    Reached(c, now, schedule);
    var s := Run(c, Initial(now), schedule);
    PunishedHere(c, s.shared, pid, s.processes[pid]);
  }

  predicate OutlivedWindow(c: Config, life: Life, generation: int, seen: int, receivedAt: int)
    requires 1 <= generation < seen <= Top(life)
  {
    ReplacedAt(life, generation) + Window(c) <= receivedAt && ReplacedAt(life, seen - 1) <= receivedAt
  }

  lemma PunishedHere(c: Config, sh: Shared, pid: nat, p: Process)
    requires ValidConfig(c) && SharedOk(c, sh) && p.Fetched? && ProcessOk(c, sh, pid, p)
    ensures Act(c, sh, p).1.Punishing?
       <==> && Decodes(p.record, Milli(sh.now)) && p.record.identity.session == p.session
            && p.generation < p.record.generation
            && OutlivedWindow(c, sh.lives[p.record.identity.session], p.generation, p.record.generation, p.receivedAt)
  {
    var id := p.record.identity.session;
    assert LifeOk(c, sh, id, sh.lives[id]);
    VerdictByHistory(c, sh.lives[id], Milli(sh.now), p.record.generation, p.generation, p.receivedAt);
  }

  // ----- Renew -----

  /** The compare-and-set loop decides within two passes: only the first pass can reach the compare-and-set,
      after a failure the next read sees a later generation or nothing, and the three-attempt error never happens. */
  lemma RenewDecidesInTwoPasses(c: Config, now: nat, schedule: seq<Step>, pid: nat)
    requires Start(c, now)
    ensures var s := Run(c, Initial(now), schedule);
            pid in s.processes ==>
              var p := s.processes[pid];
              && p != Failed(Exhausted)
              && (p.RenewReading? ==> p.pass <= 1)
              && (p.RenewFetched? && p.pass > 0 ==> p.current.generation > p.record.generation)
              && (p.RenewRotating? ==> p.pass == 0)
  {
    Reached(c, now, schedule);
    var s := Run(c, Initial(now), schedule);
    assert pid in s.processes ==> ProcessOk(c, s.shared, pid, s.processes[pid]);
  }

  /** A successful refresh of generation g hands out generation g or g + 1 of the same session. */
  lemma RefreshYieldsOwnOrNext(c: Config, now: nat, schedule: seq<Step>, pid: nat)
    requires Start(c, now)
    ensures var s := Run(c, Initial(now), schedule);
            pid in s.processes && s.processes[pid].Holding? ==>
              var p := s.processes[pid];
              && p.token.session == p.session
              && p.refreshed >= 1 && (p.token.generation == p.refreshed || p.token.generation == p.refreshed + 1)
  {
    Reached(c, now, schedule);
    var s := Run(c, Initial(now), schedule);
    assert pid in s.processes ==> ProcessOk(c, s.shared, pid, s.processes[pid]);
  }

  predicate HasToken(p: Process) {
    p.Issued? || p.Holding?
  }

  /** Refreshes converge: all callers ever given one generation of one session hold the identical token. */
  lemma OneTokenPerGeneration(c: Config, now: nat, schedule: seq<Step>, a: nat, b: nat)
    requires Start(c, now)
    ensures var s := Run(c, Initial(now), schedule);
            && a in s.processes && b in s.processes && HasToken(s.processes[a]) && HasToken(s.processes[b])
            && s.processes[a].token.session == s.processes[b].token.session
            && s.processes[a].token.generation == s.processes[b].token.generation
            ==> s.processes[a].token == s.processes[b].token
  {
    Reached(c, now, schedule);
    var s := Run(c, Initial(now), schedule);
    assert a in s.processes ==> ProcessOk(c, s.shared, a, s.processes[a]);
    assert b in s.processes ==> ProcessOk(c, s.shared, b, s.processes[b]);
  }

  // ----- Lifetimes -----

  /** What never changes from one state of a run to a later one. */
  ghost predicate Continues(sh: Shared, sh': Shared) {
    && sh.now <= sh'.now
    && (forall id :: id in sh.lives ==>
          && id in sh'.lives && sh'.lives[id].birth == sh.lives[id].birth
          && sh.lives[id].history <= sh'.lives[id].history
          && (id in sh'.store ==> id in sh.store))
  }

  lemma ApplyContinues(c: Config, s: State, step: Step)
    requires Inv(c, s)
    ensures Continues(s.shared, Apply(c, s, step).shared)
  {
    if (step.Advance? || step.Lose?) && step.pid in s.processes {
      ActKeeps(c, s.shared, step.pid, s.processes[step.pid]);
      var sh' := Act(c, s.shared, s.processes[step.pid]).0;
      assert Grows(s.shared, sh', step.pid);
      forall id | id in s.shared.lives
        ensures id in sh'.lives && sh'.lives[id].birth == s.shared.lives[id].birth
        ensures s.shared.lives[id].history <= sh'.lives[id].history && (id in sh'.store ==> id in s.shared.store)
      {
        assert LifeGrows(s.shared, sh', id);
      }
    }
  }

  lemma {:induction false} RunContinues(c: Config, s: State, schedule: seq<Step>)
    requires Inv(c, s)
    ensures Continues(s.shared, Run(c, s, schedule).shared)
    decreases |schedule|
  {
    if schedule != [] {
      var earlier := schedule[..|schedule| - 1];
      RunContinues(c, s, earlier);
      RunKeeps(c, s, earlier);
      ApplyContinues(c, Run(c, s, earlier), schedule[|schedule| - 1]);
    }
  }

  lemma {:induction false} RunSplits(c: Config, s: State, first: seq<Step>, second: seq<Step>)
    ensures Run(c, s, first + second) == Run(c, Run(c, s, first), second)
    decreases |second|
  {
    if second == [] {
      assert first + second == first;
    } else {
      var all := first + second;
      assert all[..|all| - 1] == first + second[..|second| - 1];
      RunSplits(c, s, first, second[..|second| - 1]);
    }
  }

  /** Identity, lifetime choice, creation and expiry are fixed at birth: whatever is stored for a session at any
      two moments of a run differs only in generation and rotation stamp, and only moves forward. */
  lemma SessionsKeepTheirBirth(c: Config, now: nat, first: seq<Step>, second: seq<Step>, id: SessionId)
    requires Start(c, now)
    ensures var early := Run(c, Initial(now), first).shared;
            var late := Run(c, Initial(now), first + second).shared;
            id in early.store && id in late.store ==>
              var r, r' := early.store[id].value, late.store[id].value;
              && r' == r.(generation := r'.generation, rotatedAt := r'.rotatedAt)
              && r.generation <= r'.generation
              && early.store[id].expiredAt == late.store[id].expiredAt
              && (r.generation == r'.generation ==> r == r')
  {
    Reached(c, now, first);
    Reached(c, now, first + second);
    RunSplits(c, Initial(now), first, second);
    var early := Run(c, Initial(now), first);
    RunContinues(c, early, second);
    var late := Run(c, Initial(now), first + second);
    if id in early.shared.store && id in late.shared.store {
      assert StoredOk(early.shared, id, early.shared.store[id]);
      assert StoredOk(late.shared, id, late.shared.store[id]);
    }
  }

  /** Once a session that existed is deleted or expired, no later read returns it and no rotation revives it. */
  lemma GoneForGood(c: Config, now: nat, first: seq<Step>, second: seq<Step>, id: SessionId, expected: Record,
                    next: Record)
    requires Start(c, now)
    requires var early := Run(c, Initial(now), first).shared;
             id in early.lives && id !in Visible(early.store, early.now)
    ensures var late := Run(c, Initial(now), first + second).shared;
            && GetEntry(late.store, id, late.now).0 == Miss
            && !RotateEntry(late.store, id, expected, next, Deadline(expected), late.now).0
  {
    Reached(c, now, first);
    Reached(c, now, first + second);
    RunSplits(c, Initial(now), first, second);
    var early := Run(c, Initial(now), first);
    RunContinues(c, early, second);
    var late := Run(c, Initial(now), first + second);
    if id in late.shared.store {
      assert StoredOk(early.shared, id, early.shared.store[id]);
      assert StoredOk(late.shared, id, late.shared.store[id]);
    }
  }

  // ----- The shape of live records -----

  /** Rotations are a retry window apart, so the generation is bounded by the session's age; every live record
      passes decodeRecord, and the MaxInt64 generation the code guards against is out of reach. */
  lemma LiveRecordsAreWellShaped(c: Config, now: nat, schedule: seq<Step>, id: SessionId)
    requires Start(c, now)
    ensures var sh := Run(c, Initial(now), schedule).shared;
            id in Visible(sh.store, sh.now) ==>
              var r := sh.store[id].value;
              && r.identity.session == id
              && Decodes(r, Milli(sh.now))
              && (r.generation >= 2 ==> r.createdAt + (r.generation - 2) * Window(c) <= r.rotatedAt < r.expiredAt)
              && r.generation < MAX_INT64
  {
    Reached(c, now, schedule);
    var sh := Run(c, Initial(now), schedule).shared;
    if id in Visible(sh.store, sh.now) {
      LiveRecordHere(c, sh, id);
    }
  }

  lemma LiveRecordHere(c: Config, sh: Shared, id: SessionId)
    requires ValidConfig(c) && SharedOk(c, sh) && id in sh.store && sh.store[id].expiredAt > sh.now
    ensures var r := sh.store[id].value;
            && r.identity.session == id
            && Decodes(r, Milli(sh.now))
            && (r.generation >= 2 ==> r.createdAt + (r.generation - 2) * Window(c) <= r.rotatedAt < r.expiredAt)
            && r.generation < MAX_INT64
  {
    assert StoredOk(sh, id, sh.store[id]);
    var life := sh.lives[id];
    assert LifeOk(c, sh, id, life);
    DeadlineInMillis(life.birth.expiredAt, sh.now);
    var r := sh.store[id].value;
    if r.generation >= 2 {
      StampsApart(c, life, Milli(sh.now), 0, r.generation - 2);
      AtLeastOnePer(r.generation - 2, Window(c));
    }
  }

  lemma AtLeastOnePer(n: int, window: int)
    requires n >= 0 && window >= 1
    ensures n * window >= n
  {}

  // ----- Promptness is needed -----

  const SlowConfig := Config(100 * NANOS_PER_MILLI, 100 * NANOS_PER_MILLI, 10 * NANOS_PER_MILLI, 1)
  const Somebody := Identity(1, "operator", "CODE0001", "s", 1)
  const FirstRecord := Record(Somebody, false, 1, 1, 101, 0)
  const SecondRecord := Record(Somebody, false, 2, 1, 101, 1)

  /** A schedule of the model in which the newest token is punished.  Process 0 issues the session, process 1 accepts
      its token, process 2 stamps a rotation and stalls for a whole window before its compare-and-set; the token that
      process 3 presents meanwhile is still the newest one, and is taken for a replay once the rotation lands. */
  lemma SlowRotationPunishesCurrentToken()
    ensures Start(SlowConfig, NANOS_PER_MILLI)
    ensures exists schedule ::
              var s := Run(SlowConfig, Initial(NANOS_PER_MILLI), schedule);
              3 in s.processes && s.processes[3].Punishing? && s.processes[3].wasCurrent
  {
    var c := SlowConfig;
    var begin := Initial(NANOS_PER_MILLI);
    var t, s := [], begin;
    var issue := StartIssue(0, "s", Somebody, false);
    t, s := RunExtends(c, begin, t, s, issue);
    assert s.processes[0] == Issuing(FirstRecord);
    t, s := SlowAdvance(begin, t, s, 0);
    assert s.processes.Keys == {0} && SlowShared(s.shared, FirstRecord, 1);
    t, s := SlowAccept(begin, t, s);
    t, s := SlowStamp(begin, t, s);
    t, s := SlowStall(begin, t, s);
  }

  lemma RunExtends(c: Config, begin: State, t: seq<Step>, s: State, step: Step) returns (t': seq<Step>, s': State)
    requires s == Run(c, begin, t)
    ensures s' == Run(c, begin, t') && s' == Apply(c, s, step)
  {
    t' := t + [step];
    assert t'[..|t|] == t;
    s' := Run(c, begin, t');
  }

  lemma SlowAdvance(begin: State, t: seq<Step>, s: State, pid: nat) returns (t': seq<Step>, s': State)
    requires s == Run(SlowConfig, begin, t) && pid in s.processes
    ensures s' == Run(SlowConfig, begin, t') && s' == Moved(s, pid, Act(SlowConfig, s.shared, s.processes[pid]))
  {
    t', s' := RunExtends(SlowConfig, begin, t, s, Advance(pid));
  }

  predicate SlowShared(sh: Shared, record: Record, nowMillis: nat) {
    && sh.store == map["s" := Stored(record, 101 * NANOS_PER_MILLI)]
    && "s" in sh.lives && sh.now == nowMillis * NANOS_PER_MILLI
  }

  lemma SlowAccept(begin: State, t: seq<Step>, s: State) returns (t': seq<Step>, s': State)
    requires s == Run(SlowConfig, begin, t) && s.processes.Keys == {0} && SlowShared(s.shared, FirstRecord, 1)
    ensures s' == Run(SlowConfig, begin, t') && s'.processes.Keys == {0, 1} && s'.shared == s.shared
    ensures s'.processes[1] == Accepted(FirstRecord, 1)
  {
    t', s' := RunExtends(SlowConfig, begin, t, s, StartRead(1, "s", 1));
    assert s'.processes[1] == Reading("s", 1, 1, true);
    t', s' := SlowAdvance(begin, t', s', 1);
    assert s'.processes[1] == Fetched("s", 1, 1, true, FirstRecord) && s'.shared == s.shared;
    t', s' := SlowAdvance(begin, t', s', 1);
  }

  lemma SlowStamp(begin: State, t: seq<Step>, s: State) returns (t': seq<Step>, s': State)
    requires s == Run(SlowConfig, begin, t) && s.processes.Keys == {0, 1} && SlowShared(s.shared, FirstRecord, 1)
    requires s.processes[1] == Accepted(FirstRecord, 1)
    ensures s' == Run(SlowConfig, begin, t') && s'.processes.Keys == {0, 1, 2} && s'.shared == s.shared
    ensures s'.processes[2] == RenewRotating(FirstRecord, 1, Somebody, 0, FirstRecord, SecondRecord)
  {
    t', s' := RunExtends(SlowConfig, begin, t, s, StartRenew(2, 1, Somebody));
    assert s'.processes[2] == RenewReading(FirstRecord, 1, Somebody, 0) && s'.shared == s.shared;
    SlowRenewal(s.shared);
    t', s' := SlowAdvance(begin, t', s', 2);
    t', s' := SlowAdvance(begin, t', s', 2);
    t', s' := SlowAdvance(begin, t', s', 2);
    t', s' := SlowAdvance(begin, t', s', 2);
  }

  lemma SlowRenewal(sh: Shared)
    requires SlowShared(sh, FirstRecord, 1)
    ensures Act(SlowConfig, sh, RenewReading(FirstRecord, 1, Somebody, 0)) ==
        (sh, RenewFetched(FirstRecord, 1, Somebody, 0, FirstRecord))
    ensures Act(SlowConfig, sh, RenewFetched(FirstRecord, 1, Somebody, 0, FirstRecord)) ==
        (sh, RenewDecoded(FirstRecord, 1, Somebody, 0, FirstRecord))
    ensures Act(SlowConfig, sh, RenewDecoded(FirstRecord, 1, Somebody, 0, FirstRecord)) ==
        (sh, RenewStamping(FirstRecord, 1, Somebody, 0, FirstRecord))
    ensures Act(SlowConfig, sh, RenewStamping(FirstRecord, 1, Somebody, 0, FirstRecord))
         == (sh, RenewRotating(FirstRecord, 1, Somebody, 0, FirstRecord, SecondRecord))
  {}

  lemma SlowStall(begin: State, t: seq<Step>, s: State) returns (t': seq<Step>, s': State)
    requires s == Run(SlowConfig, begin, t) && s.processes.Keys == {0, 1, 2} && SlowShared(s.shared, FirstRecord, 1)
    requires s.processes[2] == RenewRotating(FirstRecord, 1, Somebody, 0, FirstRecord, SecondRecord)
    ensures s' == Run(SlowConfig, begin, t')
    ensures 3 in s'.processes && s'.processes[3] == Punishing("s", 1, 11, true)
  {
    t', s' := RunExtends(SlowConfig, begin, t, s, Tick(10 * NANOS_PER_MILLI));
    assert SlowShared(s'.shared, FirstRecord, 11);
    t', s' := RunExtends(SlowConfig, begin, t', s', StartRead(3, "s", 1));
    assert s'.processes[3] == Reading("s", 1, 11, true) && SlowShared(s'.shared, FirstRecord, 11);
    t', s' := SlowAdvance(begin, t', s', 2);
    assert SlowShared(s'.shared, SecondRecord, 11);
    SlowVerdict(s'.shared);
    t', s' := SlowAdvance(begin, t', s', 3);
    t', s' := SlowAdvance(begin, t', s', 3);
  }

  lemma SlowVerdict(sh: Shared)
    requires SlowShared(sh, SecondRecord, 11)
    ensures Act(SlowConfig, sh, Reading("s", 1, 11, true)) == (sh, Fetched("s", 1, 11, true, SecondRecord))
    ensures Act(SlowConfig, sh, Fetched("s", 1, 11, true, SecondRecord)) == (sh, Punishing("s", 1, 11, true))
  {}
}
