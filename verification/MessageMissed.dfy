/**
When a row misses nothing: it does so for every account that no send names before the account exists.
*/
module MessageMissed {
  import opened Options
  import opened MessageStatus
  import opened MessageProtocol
  import opened MessageSharing
  import opened MessageTheorems

  // ----- What a caller has to observe -----

  /** A send that begins by naming an account that does not exist. */
  predicate NamesUnknown(s: State, step: Step, u: UserId) {
    && step.Begin? && MayBegin(s, step.pid, step.op)
    && step.op.SendOp? && step.op.recipients.Some? && u in step.op.recipients.value
    && u !in s.db.users
  }

  /** No send of a schedule does so. */
  predicate NamedWhileExisting(start: State, schedule: seq<Step>, u: UserId) {
    forall k :: 0 <= k < |schedule| ==> !NamesUnknown(Run(start, schedule[..k]), schedule[k], u)
  }

  // ----- The invariant -----

  predicate Named(tx: Transaction, u: UserId) {
    tx.op.SendOp? && tx.op.recipients.Some? && u in tx.op.recipients.value
  }

  /** The user's row is locked by every send to the user, and misses at most the message it is about to count. */
  ghost predicate Attended(tx: Transaction, u: UserId) {
    && (Named(tx, u) ==> u in tx.work.users && (tx.stage != Initialize ==> u in tx.locked))
    && (forall id :: (id, u) in tx.work.missed ==> tx.op.SendOp? && tx.stage == Count && id == tx.message)
    && (tx.op.StatusOp? && tx.op.user == u && tx.stage == Commit ==> tx.missed == {})
  }

  ghost predicate NothingMissed(s: State, u: UserId) {
    && (forall id :: (id, u) !in s.db.missed)
    && (forall pid :: pid in s.open ==> Attended(s.open[pid], u))
    && (forall i :: 0 <= i < |s.answers| && s.answers[i].user == u ==> s.answers[i].missed == {})
  }

  // ----- Statements -----

  /** The count of a send leaves nobody missing its message. */
  lemma CountLeavesNoneMissing(tx: Transaction, committed: Db, now: int, sequence: MessageId, u: UserId)
    requires TransactionOk(tx, committed, now) && tx.stage == Count && Attended(tx, u)
    ensures var out := RunStatement(tx, committed, now, sequence);
            out.Continue? ==> forall id :: (id, u) !in out.tx.work.missed
  {
    hide Good;
    assert Sending(tx, now) && Delivered(tx);
    CountedAreNotMissed(tx, RunStatement(tx, committed, now, sequence).tx, now);
  }

  lemma StatementAttends(tx: Transaction, committed: Db, now: int, sequence: MessageId, u: UserId)
    requires now >= 0 && TransactionOk(tx, committed, now) && tx.stage != Commit && Attended(tx, u)
    ensures var out := RunStatement(tx, committed, now, sequence);
            out.Continue? ==> Attended(out.tx.(locked := tx.locked + Touched(tx)), u)
  {
    if tx.stage == Count {
      CountLeavesNoneMissing(tx, committed, now, sequence, u);
      hide TransactionOk, AddStatus;
    } else if tx.stage == Initialize {
      InitializeAttends(tx, committed, now, sequence, u);
    } else if tx.stage == Insert || tx.stage == Deliver {
      hide Good;
      SendAttends(tx, committed, now, sequence, u);
    } else {
      hide Good;
      RestAttends(tx, committed, now, sequence, u);
    }
  }

  lemma InitializeAttends(tx: Transaction, committed: Db, now: int, sequence: MessageId, u: UserId)
    requires tx.stage == Initialize && Attended(tx, u)
    ensures var out := RunStatement(tx, committed, now, sequence);
            out.Continue? ==> Attended(out.tx.(locked := tx.locked + Touched(tx)), u)
  {
    var db := InitRows(tx.work, UsersOf(tx.op));
    assert db.missed == tx.work.missed && db.users == tx.work.users;
    hide InitRows;
  }

  lemma SendAttends(tx: Transaction, committed: Db, now: int, sequence: MessageId, u: UserId)
    requires TransactionOk(tx, committed, now) && Attended(tx, u) && (tx.stage == Insert || tx.stage == Deliver)
    ensures var out := RunStatement(tx, committed, now, sequence);
            out.Continue? ==> Attended(out.tx.(locked := tx.locked + Touched(tx)), u)
  {
    assert tx.op.SendOp?;
    hide TransactionOk;
  }

  lemma RestAttends(tx: Transaction, committed: Db, now: int, sequence: MessageId, u: UserId)
    requires TransactionOk(tx, committed, now) && Attended(tx, u)
    requires tx.stage == Repair || tx.stage == Mutate || tx.stage == Recompute
    ensures var out := RunStatement(tx, committed, now, sequence);
            out.Continue? ==> Attended(out.tx.(locked := tx.locked + Touched(tx)), u)
  {
    assert forall id :: (id, u) !in tx.work.missed;
    var repaired := Refresh(tx.work, UsersOf(tx.op), true, now);
    assert forall id :: id !in Missed(repaired, u);
    hide TransactionOk, RefreshedRow, CanRead, InInbox, Recount, ReceiptOf, Truth;
  }

  // ----- Steps -----

  lemma ExecutedAttends(s: State, pid: Pid, sequence: MessageId, u: UserId)
    requires Inv(s) && NothingMissed(s, u) && pid in s.open && s.open[pid].stage != Commit
    ensures NothingMissed(Executed(s, pid, sequence), u)
  {
    var tx := s.open[pid];
    assert OneOk(tx, s.db, s.now, s.drawn);
    StatementAttends(tx, s.db, s.now, sequence, u);
    hide RunStatement, Touched, Waits, Attended, Good, OpenOk;
  }

  /** A commit makes no other transaction miss anything either: it has locked the rows of the accounts its message
      reaches, and so has the other. */
  lemma OtherAttends(tx: Transaction, other: Transaction, db: Db, u: UserId)
    requires Committable(tx, db) && !Exclusive(other) && Agrees(other, db) && LocksOk(other) && Apart(tx, other)
    requires WellFormed(tx.work) && WellFormed(other.work)
    requires Attended(tx, u) && Attended(other, u)
    ensures Attended(Merged(other, tx), u)
  {
    var merged := Merge(other.work, tx);
    assert merged.users == other.work.users;
    forall id | (id, u) in merged.missed ensures other.op.SendOp? && other.stage == Count && id == other.message {
      MergedMiss(other.work, tx, (id, u));
      LockedByOne(tx, other, u);
      assert (id, u) in tx.work.receipts ==> (id, u).0 in tx.work.messages;
      assert (id, u) in other.work.receipts ==> (id, u).0 in other.work.messages;
      hide Merge;
      if u in tx.locked {
        assert false;
      }
    }
  }

  lemma CommittedAttends(s: State, pid: Pid, u: UserId)
    requires Inv(s) && NothingMissed(s, u) && pid in s.open && s.open[pid].stage == Commit
    ensures NothingMissed(Committed(s, pid), u)
  {
    var tx := s.open[pid];
    assert OneOk(tx, s.db, s.now, s.drawn) && Attended(tx, u);
    hide Good;
    OpenIsWellFormed(tx, s.db, s.now);
    CommitIsWork(tx, s.db);
    forall p | p in s.open && p != pid ensures Attended(Merged(s.open[p], tx), u) {
      assert OneOk(s.open[p], s.db, s.now, s.drawn) && Apart(tx, s.open[p]);
      OpenIsWellFormed(s.open[p], s.db, s.now);
      OtherAttends(tx, s.open[p], s.db, u);
    }
    assert forall id :: (id, u) !in tx.work.missed;
    hide Inv, Merge, Merged, TransactionOk, SharingOk, Apart, WellFormed;
    CommittedParts(s, pid, u);
  }

  lemma CommittedParts(s: State, pid: Pid, u: UserId)
    requires pid in s.open && NothingMissed(s, u) && Attended(s.open[pid], u) && s.open[pid].stage == Commit
    requires forall id :: (id, u) !in Merge(s.db, s.open[pid]).missed
    requires forall p :: p in s.open && p != pid ==> Attended(Merged(s.open[p], s.open[pid]), u)
    ensures NothingMissed(Committed(s, pid), u)
  {
    hide Merge, Merged;
    var next := Committed(s, pid);
    forall p | p in next.open ensures Attended(next.open[p], u) {
      assert p in s.open && p != pid;
    }
  }

  lemma StepAttends(s: State, step: Step, u: UserId)
    requires Inv(s) && NothingMissed(s, u) && !NamesUnknown(s, step, u)
    ensures NothingMissed(Apply(s, step), u)
  {
    hide Inv, Good;
    match step
    case Tick(elapsed) =>
    case Register(v, createdAt) => RegisterAttends(s, v, createdAt, u);
    case Unregister(v) =>
    case Poll(v) =>
      if v == u {
        NoneMissed(s, u);
      }
    case Begin(pid, op) => BeginAttends(s, pid, op, u);
    case Execute(pid, sequence) =>
      if pid in s.open {
        if s.open[pid].stage == Commit {
          CommittedAttends(s, pid, u);
        } else {
          ExecutedAttends(s, pid, sequence, u);
        }
      }
      hide Executed, Committed, NothingMissed;
    case Abort(pid) =>
  }

  lemma NoneMissed(s: State, u: UserId)
    requires NothingMissed(s, u)
    ensures Missed(s.db, u) == {}
  {
    assert forall id :: id !in Missed(s.db, u);
  }

  lemma RegisterAttends(s: State, v: UserId, createdAt: int, u: UserId)
    requires NothingMissed(s, u)
    ensures NothingMissed(Apply(s, Register(v, createdAt)), u)
  {
    var next := Apply(s, Register(v, createdAt));
    forall pid | pid in next.open ensures Attended(next.open[pid], u) {
      assert Attended(s.open[pid], u);
    }
  }

  lemma BeginAttends(s: State, pid: Pid, op: Operation, u: UserId)
    requires NothingMissed(s, u) && !NamesUnknown(s, Begin(pid, op), u)
    ensures NothingMissed(Apply(s, Begin(pid, op)), u)
  {
    var next := Apply(s, Begin(pid, op));
    hide MayBegin;
    forall p | p in next.open ensures Attended(next.open[p], u) {
      assert p in s.open ==> Attended(s.open[p], u);
    }
  }

  // ----- Runs -----

  lemma {:induction false} RunAttends(start: State, schedule: seq<Step>, u: UserId)
    requires Inv(start) && NothingMissed(start, u) && NamedWhileExisting(start, schedule, u)
    ensures NothingMissed(Run(start, schedule), u)
    decreases |schedule|
  {
    hide Inv, NothingMissed, NamesUnknown, Apply;
    if schedule != [] {
      var rest := schedule[..|schedule| - 1];
      assert NamedWhileExisting(start, rest, u) by {
        forall k | 0 <= k < |rest| ensures !NamesUnknown(Run(start, rest[..k]), rest[k], u) {
          assert rest[..k] == schedule[..k] && rest[k] == schedule[k];
        }
      }
      RunAttends(start, rest, u);
      RunKeeps(start, rest);
      assert !NamesUnknown(Run(start, schedule[..|schedule| - 1]), schedule[|schedule| - 1], u);
      StepAttends(Run(start, rest), schedule[|schedule| - 1], u);
    }
  }

  // ----- Theorems -----

  /** A send whose recipient it has delivered to leaves the recipient's row without the message exactly when the row
      was committed meanwhile and the send had not locked it. */
  lemma SendIsMissedExactly(s: State, pid: Pid, u: UserId)
    requires Inv(s) && pid in s.open && s.open[pid].stage == Commit
    requires Named(s.open[pid], u) && (s.open[pid].message, u) in s.open[pid].work.receipts
    ensures var tx := s.open[pid];
            (tx.message, u) in Committed(s, pid).db.missed <==> u in s.db.rows && u !in tx.locked
  {
    var tx := s.open[pid];
    assert OneOk(tx, s.db, s.now, s.drawn);
    hide Good;
    GoodIsWellFormed(s.db, s.now, Some({}));
    MergedMiss(s.db, tx, (tx.message, u));
    assert (tx.message, u) in s.db.missed ==> (tx.message, u).0 in s.db.messages;
    assert (tx.message, u) in s.db.receipts ==> (tx.message, u).0 in s.db.messages;
    hide Merge, OpenOk, StageOk;
  }

  /** If no account is named before it exists, no row misses anything. */
  lemma NobodyMissesAnything(now: int, users: map<UserId, int>, schedule: seq<Step>)
    requires now >= 0 && forall u :: NamedWhileExisting(Initial(now, users), schedule, u)
    ensures Run(Initial(now, users), schedule).db.missed == {}
  {
    var missed := Run(Initial(now, users), schedule).db.missed;
    forall k ensures k !in missed {
      var (id, u) := k;
      NothingIsMissed(now, users, schedule, u);
      assert (id, u) !in missed;
    }
  }

  /** In every run each row whose deadline is null or still ahead equals the full recount, at every instant from then
      on, for every account that no send has named before it existed; and so did every reply of Status to it, at some
      instant between call and return. */
  lemma ExactWhenNamedWhileExisting(now: int, users: map<UserId, int>, schedule: seq<Step>, u: UserId)
    requires now >= 0 && NamedWhileExisting(Initial(now, users), schedule, u)
    ensures var s := Run(Initial(now, users), schedule);
            && Missed(s.db, u) == {}
            && (forall t :: u in s.db.rows && t >= s.now && Fresh(s.db.rows[u], t) ==>
                            Truthful(s.db, u, s.db.rows[u], t))
            && (forall i :: 0 <= i < |s.answers| && s.answers[i].user == u ==>
                  s.answers[i].count == |s.answers[i].truth| && IsMax(s.answers[i].truth.Values, s.answers[i].latest))
  {
    NothingIsMissed(now, users, schedule, u);
    var s := Run(Initial(now, users), schedule);
    NoneMissed(s, u);
    hide NothingMissed, Truthful, NamedWhileExisting, Run, Initial, Missed;
    forall t | u in s.db.rows && t >= s.now && Fresh(s.db.rows[u], t) ensures Truthful(s.db, u, s.db.rows[u], t) {
      RowIsTruthful(now, users, schedule, u, t);
    }
    forall i | 0 <= i < |s.answers| && s.answers[i].user == u
      ensures s.answers[i].count == |s.answers[i].truth| && IsMax(s.answers[i].truth.Values, s.answers[i].latest)
    {
      StatusIsExactInsideTheCall(now, users, schedule, i);
      AnswersMissNothing(s, u, i);
    }
  }

  lemma NothingIsMissed(now: int, users: map<UserId, int>, schedule: seq<Step>, u: UserId)
    requires now >= 0 && NamedWhileExisting(Initial(now, users), schedule, u)
    ensures NothingMissed(Run(Initial(now, users), schedule), u)
  {
    var start := Initial(now, users);
    Reached(now, users, []);
    assert Run(start, []) == start;
    RunAttends(start, schedule, u);
  }

  lemma AnswersMissNothing(s: State, u: UserId, i: nat)
    requires NothingMissed(s, u) && i < |s.answers| && s.answers[i].user == u
    ensures s.answers[i].missed == {}
  {
  }

  lemma RowIsTruthful(now: int, users: map<UserId, int>, schedule: seq<Step>, u: UserId, t: int)
    requires now >= 0
    requires var s := Run(Initial(now, users), schedule);
             Missed(s.db, u) == {} && u in s.db.rows && t >= s.now && Fresh(s.db.rows[u], t)
    ensures var s := Run(Initial(now, users), schedule); Truthful(s.db, u, s.db.rows[u], t)
  {
    CommittedRowsTellTheTruth(now, users, schedule, u, t);
  }
}
