/**
What every interleaving of the message transactions guarantees.
*/
module MessageTheorems {
  import opened Options
  import opened MessageStatus
  import opened MessageProtocol
  import opened MessageSharing

  // ----- One step -----

  lemma PolledAnswerIsOk(s: State, u: UserId)
    requires Inv(s) && u in s.db.rows && Fresh(s.db.rows[u], s.now)
    ensures var row := s.db.rows[u];
            AnswerOk(Answer(u, row.count, row.latest, s.now, s.now, s.now, Truth(s.db, u, s.now), Missed(s.db, u)),
                     s.now)
  {
    hide OpenOk, WellFormed;
    assert Trusted(s.db, u, s.now);
    TruthAggregates(s.db, u, s.now, s.db.rows[u]);
  }

  lemma PollKeeps(s: State, u: UserId)
    requires Inv(s)
    ensures Inv(Apply(s, Poll(u)))
  {
    hide OneOk, Apart, Good, Truth, Missed, Fresh, AnswerOk;
    if u in s.db.rows && Fresh(s.db.rows[u], s.now) {
      PolledAnswerIsOk(s, u);
    }
  }

  lemma TickKeeps(s: State, elapsed: nat)
    requires Inv(s)
    ensures Inv(Apply(s, Tick(elapsed)))
  {
    hide Good, TransactionOk, SharingOk, Apart;
    GoodLater(s.db, s.now, s.now + elapsed, Some({}));
    forall pid | pid in s.open ensures OneOk(s.open[pid], s.db, s.now + elapsed, s.drawn) {
      assert OneOk(s.open[pid], s.db, s.now, s.drawn);
      TransactionLater(s.open[pid], s.db, s.now, s.now + elapsed);
    }
  }

  lemma SharingAfterRegister(tx: Transaction, db: Db, u: UserId, createdAt: int)
    requires SharingOk(tx, db)
    ensures SharingOk(Joined(tx, u, createdAt), AddUser(db, u, createdAt))
  {
    if !Exclusive(tx) {
      var next, after := Joined(tx, u, createdAt), AddUser(db, u, createdAt);
      forall k | !Writes(next, k) ensures SameReceipt(after, next.work, k) {
        assert !Writes(tx, k) && SameReceipt(db, tx.work, k);
      }
      forall v | v !in next.locked ensures SameRow(after, next.work, v) {
        assert SameRow(db, tx.work, v);
      }
    }
  }

  lemma RegisterStepKeeps(s: State, u: UserId, createdAt: int)
    requires Inv(s) && u !in s.db.users && createdAt <= s.now
    ensures Inv(Apply(s, Register(u, createdAt)))
  {
    hide Good, TransactionOk, SharingOk;
    var next := Apply(s, Register(u, createdAt));
    AddUserKeeps(s.db, u, createdAt, s.now, Some({}));
    forall pid | pid in next.open ensures OneOk(next.open[pid], next.db, s.now, s.drawn) {
      assert OneOk(s.open[pid], s.db, s.now, s.drawn);
      RegisterKeeps(s.open[pid], s.db, s.now, u, createdAt);
      SharingAfterRegister(s.open[pid], s.db, u, createdAt);
    }
    forall p, q | p in next.open && q in next.open && p != q ensures Apart(next.open[p], next.open[q]) {
      assert Apart(s.open[p], s.open[q]);
    }
  }

  lemma BeginKeeps(s: State, pid: Pid, op: Operation)
    requires Inv(s) && MayBegin(s, pid, op)
    ensures Inv(Apply(s, Begin(pid, op)))
  {
    var next := Apply(s, Begin(pid, op));
    NewTransaction(s, pid, op);
    hide Good, TransactionOk, SharingOk;
    forall p, q | p in next.open && q in next.open && p != q ensures Apart(next.open[p], next.open[q]) {
      if p != pid && q != pid {
        assert Apart(s.open[p], s.open[q]);
      }
    }
  }

  lemma NewTransaction(s: State, pid: Pid, op: Operation)
    requires Inv(s) && MayBegin(s, pid, op)
    ensures var tx := Apply(s, Begin(pid, op)).open[pid]; TransactionOk(tx, s.db, s.now) && SharingOk(tx, s.db)
  {
    var tx := Apply(s, Begin(pid, op)).open[pid];
    forall k ensures SameReceipt(s.db, tx.work, k) {}
    forall u ensures SameRow(s.db, tx.work, u) {}
  }

  lemma ExecutedKeeps(s: State, pid: Pid, sequence: MessageId)
    requires Inv(s) && pid in s.open && s.open[pid].stage != Commit
    ensures Inv(Executed(s, pid, sequence))
  {
    var tx := s.open[pid];
    assert OneOk(tx, s.db, s.now, s.drawn);
    if !Waits(s, pid, Touched(tx)) && !(tx.stage == Insert && sequence in s.drawn) {
      StatementKeeps(tx, s.db, s.now, sequence);
      if !Exclusive(tx) {
        StatementAgrees(tx, s.db, s.now, sequence);
      }
      StatementDraws(tx, s.db, s.now, sequence);
      RestStaysOpen(s, pid, sequence);
    }
  }

  /** A statement adds at most the message whose id it drew. */
  ghost predicate OnlyDrawn(tx: Transaction, next: Transaction, sequence: MessageId) {
    && next.op == tx.op && next.locked == tx.locked
    && (if tx.stage == Insert then next.work.messages.Keys <= tx.work.messages.Keys + {sequence} &&
                                   next.message == sequence
        else next.work.messages.Keys <= tx.work.messages.Keys && next.message == tx.message &&
             (HasMessage(next) ==> HasMessage(tx)))
  }

  lemma MutateDraws(tx: Transaction, db: Db, now: int, sequence: MessageId)
    requires tx.stage == Mutate
    ensures var out := RunStatement(tx, db, now, sequence); out.Continue? ==> OnlyDrawn(tx, out.tx, sequence)
  {
    hide CanRead, InInbox, Recount, ReceiptOf;
  }

  lemma RowsDrawNothing(tx: Transaction, db: Db, now: int, sequence: MessageId)
    requires tx.stage == Initialize || tx.stage == Repair || tx.stage == Recompute
    requires tx.stage == Recompute ==> !tx.op.SendOp?
    ensures var out := RunStatement(tx, db, now, sequence); out.Continue? ==> OnlyDrawn(tx, out.tx, sequence)
  {
    hide RepairedRow, Truth, UsersOf;
  }

  lemma SendDraws(tx: Transaction, db: Db, now: int, sequence: MessageId)
    requires tx.stage == Insert || tx.stage == Deliver || tx.stage == Count
    ensures var out := RunStatement(tx, db, now, sequence); out.Continue? ==> OnlyDrawn(tx, out.tx, sequence)
  {
    hide CountedRow, UsersOf;
  }

  lemma StatementDraws(tx: Transaction, db: Db, now: int, sequence: MessageId)
    requires tx.stage != Commit && TransactionOk(tx, db, now)
    ensures var out := RunStatement(tx, db, now, sequence); out.Continue? ==> OnlyDrawn(tx, out.tx, sequence)
  {
    assert tx.stage == Recompute ==> !tx.op.SendOp?;
    hide TransactionOk, RunStatement, OnlyDrawn;
    if tx.stage == Mutate {
      MutateDraws(tx, db, now, sequence);
    } else if tx.stage == Insert || tx.stage == Deliver || tx.stage == Count {
      SendDraws(tx, db, now, sequence);
    } else {
      RowsDrawNothing(tx, db, now, sequence);
    }
  }

  /** What a statement leaves behind is in order, as its own transaction sees it. */
  ghost predicate LeavesOk(s: State, tx: Transaction, sequence: MessageId)
    requires tx.stage != Commit
  {
    var out := RunStatement(tx, s.db, s.now, sequence);
    out.Continue? ==>
      && TransactionOk(out.tx, s.db, s.now)
      && SharingOk(out.tx.(locked := tx.locked + Touched(tx)), s.db)
      && OnlyDrawn(tx, out.tx, sequence)
  }

  lemma EachStaysOk(s: State, pid: Pid, sequence: MessageId, p: Pid)
    requires Inv(s) && pid in s.open && s.open[pid].stage != Commit
    requires !Waits(s, pid, Touched(s.open[pid])) && !(s.open[pid].stage == Insert && sequence in s.drawn)
    requires LeavesOk(s, s.open[pid], sequence)
    requires p in Executed(s, pid, sequence).open
    ensures var next := Executed(s, pid, sequence); OneOk(next.open[p], next.db, next.now, next.drawn)
  {
    var tx := s.open[pid];
    var out := RunStatement(tx, s.db, s.now, sequence);
    assert OneOk(s.open[p], s.db, s.now, s.drawn);
    if out.Continue? {
      LocksDoNotMatter(out.tx, s.db, s.now, tx.locked + Touched(tx));
    }
    hide RunStatement, Good, SharingOk, TransactionOk, Touched;
  }

  lemma RestStaysOpen(s: State, pid: Pid, sequence: MessageId)
    requires Inv(s) && pid in s.open && s.open[pid].stage != Commit
    requires !Waits(s, pid, Touched(s.open[pid])) && !(s.open[pid].stage == Insert && sequence in s.drawn)
    requires LeavesOk(s, s.open[pid], sequence)
    ensures Inv(Executed(s, pid, sequence))
  {
    var next := Executed(s, pid, sequence);
    RestIsOk(s, pid, sequence);
    hide RunStatement, Good, OpenOk, Touched, Waits, LeavesOk;
  }

  lemma RestIsOk(s: State, pid: Pid, sequence: MessageId)
    requires Inv(s) && pid in s.open && s.open[pid].stage != Commit
    requires !Waits(s, pid, Touched(s.open[pid])) && !(s.open[pid].stage == Insert && sequence in s.drawn)
    requires LeavesOk(s, s.open[pid], sequence)
    ensures OpenOk(Executed(s, pid, sequence))
  {
    var next := Executed(s, pid, sequence);
    hide RunStatement, Good, OneOk, Touched, Waits, LeavesOk, Inv, Executed;
    forall p | p in next.open ensures OneOk(next.open[p], next.db, next.now, next.drawn) {
      EachStaysOk(s, pid, sequence, p);
    }
    forall p, q | p in next.open && q in next.open && p != q ensures Apart(next.open[p], next.open[q]) {
      StillApart(s, pid, sequence, p, q);
    }
  }

  lemma LocksDoNotMatter(tx: Transaction, db: Db, now: int, locked: set<UserId>)
    requires TransactionOk(tx, db, now)
    ensures TransactionOk(tx.(locked := locked), db, now)
  {
  }

  lemma StillApart(s: State, pid: Pid, sequence: MessageId, p: Pid, q: Pid)
    requires Inv(s) && pid in s.open && s.open[pid].stage != Commit
    requires !Waits(s, pid, Touched(s.open[pid])) && !(s.open[pid].stage == Insert && sequence in s.drawn)
    requires LeavesOk(s, s.open[pid], sequence)
    requires p in Executed(s, pid, sequence).open && q in Executed(s, pid, sequence).open && p != q
    ensures Apart(Executed(s, pid, sequence).open[p], Executed(s, pid, sequence).open[q])
  {
    var tx := s.open[pid];
    hide RunStatement, Good, TransactionOk, SharingOk, Waits;
    assert Apart(s.open[p], s.open[q]);
    if p == pid || q == pid {
      var other := if p == pid then q else p;
      NotWaiting(s, pid, Touched(tx), other);
      assert Apart(tx, s.open[other]);
      assert OneOk(s.open[other], s.db, s.now, s.drawn);
      SentIsThere(s.open[other], s.db);
    }
  }

  lemma NotWaiting(s: State, pid: Pid, users: set<UserId>, other: Pid)
    requires !Waits(s, pid, users) && other in s.open && other != pid
    ensures s.open[other].locked * users == {}
  {
  }

  lemma SentIsThere(tx: Transaction, db: Db)
    requires SharingOk(tx, db)
    ensures !Exclusive(tx) && HasMessage(tx) ==> tx.message in tx.work.messages
  {
  }

  lemma CommitKeeps(s: State, pid: Pid)
    requires Inv(s) && pid in s.open && s.open[pid].stage == Commit
    ensures Inv(Committed(s, pid))
  {
    var tx := s.open[pid];
    assert OneOk(tx, s.db, s.now, s.drawn);
    CommittedIsGood(tx, s.db, s.now);
    GoodIsWellFormed(tx.work, s.now, Some({}));
    CommitIsWork(tx, s.db);
    AnswerKeeps(s, pid);
    RestSurvives(s, pid);
    hide Good, OpenOk, AnswerOk, Merge, MergedAt, ReplyExact;
  }

  lemma RestSurvives(s: State, pid: Pid)
    requires Inv(s) && pid in s.open && s.open[pid].stage == Commit && Merge(s.db, s.open[pid]) == s.open[pid].work
    ensures OpenOk(Committed(s, pid))
  {
    OthersSurvive(s, pid);
    hide OneOk, Merge, Merged, Apart;
  }

  lemma OthersSurvive(s: State, pid: Pid)
    requires Inv(s) && pid in s.open && s.open[pid].stage == Commit
    ensures var tx := s.open[pid];
            && (forall p :: p in s.open && p != pid ==> OneOk(Merged(s.open[p], tx), tx.work, s.now, s.drawn))
            && (forall p, q :: p in s.open && q in s.open && p != pid && q != pid && p != q ==>
                  Apart(Merged(s.open[p], tx), Merged(s.open[q], tx)))
  {
    hide Good, TransactionOk, SharingOk, Merge, OneOk;
    forall p | p in s.open && p != pid ensures OneOk(Merged(s.open[p], s.open[pid]), s.open[pid].work, s.now, s.drawn) {
      OtherSurvives(s, pid, p);
    }
    forall p, q | p in s.open && q in s.open && p != pid && q != pid && p != q
      ensures Apart(Merged(s.open[p], s.open[pid]), Merged(s.open[q], s.open[pid]))
    {
      assert Apart(s.open[p], s.open[q]);
    }
  }

  lemma CommittedIsGood(tx: Transaction, db: Db, now: int)
    requires TransactionOk(tx, db, now) && tx.stage == Commit
    ensures Good(tx.work, now, Some({})) && ReplyExact(tx, now)
    ensures tx.op.StatusOp? ==> tx.op.startedAt <= now
  {
  }

  lemma OtherSurvives(s: State, pid: Pid, p: Pid)
    requires Inv(s) && pid in s.open && s.open[pid].stage == Commit && p in s.open && p != pid
    ensures OneOk(Merged(s.open[p], s.open[pid]), s.open[pid].work, s.now, s.drawn)
  {
    var tx, other := s.open[pid], s.open[p];
    assert Apart(tx, other);
    assert OneOk(tx, s.db, s.now, s.drawn) && OneOk(other, s.db, s.now, s.drawn);
    CommittedIsGood(tx, s.db, s.now);
    OpenIsWellFormed(other, s.db, s.now);
    OtherStays(tx, other, s.db, s.now);
    hide Good, TransactionOk, SharingOk;
    MergedMessageKeys(tx, other);
  }

  lemma MergedMessageKeys(tx: Transaction, other: Transaction)
    ensures Merge(other.work, tx).messages.Keys <= other.work.messages.Keys + tx.work.messages.Keys
  {
  }

  lemma AnswerKeeps(s: State, pid: Pid)
    requires Inv(s) && pid in s.open && s.open[pid].stage == Commit && ReplyExact(s.open[pid], s.now)
    ensures forall i :: 0 <= i < |Committed(s, pid).answers| ==> AnswerOk(Committed(s, pid).answers[i], s.now)
  {
    hide Merge, Good, TransactionOk, SharingOk, Apart;
  }

  lemma ApplyKeeps(s: State, step: Step)
    requires Inv(s)
    ensures Inv(Apply(s, step))
  {
    hide Good, OpenOk, RunStatement;
    match step
    case Tick(elapsed) => TickKeeps(s, elapsed);
    case Register(u, createdAt) =>
      if u !in s.db.users && createdAt <= s.now { RegisterStepKeeps(s, u, createdAt); }
    case Unregister(u) => UnregisterKeeps(s, u);
    case Poll(u) => PollKeeps(s, u);
    case Begin(pid, op) =>
      if MayBegin(s, pid, op) { BeginKeeps(s, pid, op); }
    case Execute(pid, sequence) => ExecuteKeeps(s, pid, sequence);
    case Abort(pid) => AbortKeeps(s, pid);
  }

  lemma UnregisterKeeps(s: State, u: UserId)
    requires Inv(s)
    ensures Inv(Apply(s, Unregister(u)))
  {
    hide AnswerOk, OneOk;
    if s.open == map[] {
      DropUserKeeps(s.db, u, s.now);
    }
  }

  lemma AbortKeeps(s: State, pid: Pid)
    requires Inv(s)
    ensures Inv(Apply(s, Abort(pid)))
  {
    hide Good, TransactionOk, SharingOk, Apart;
  }

  lemma ExecuteKeeps(s: State, pid: Pid, sequence: MessageId)
    requires Inv(s)
    ensures Inv(Apply(s, Execute(pid, sequence)))
  {
    hide Inv, RunStatement, Merge;
    if pid in s.open {
      if s.open[pid].stage == Commit {
        CommitKeeps(s, pid);
      } else {
        ExecutedKeeps(s, pid, sequence);
      }
    }
  }

  lemma {:induction false} RunKeeps(s: State, schedule: seq<Step>)
    requires Inv(s)
    ensures Inv(Run(s, schedule))
    decreases |schedule|
  {
    if schedule != [] {
      RunKeeps(s, schedule[..|schedule| - 1]);
      ApplyKeeps(Run(s, schedule[..|schedule| - 1]), schedule[|schedule| - 1]);
    }
  }

  // ----- Theorems -----

  lemma Reached(now: int, users: map<UserId, int>, schedule: seq<Step>)
    requires now >= 0
    ensures Inv(Run(Initial(now, users), schedule))
  {
    var s := Initial(now, users);
    forall u, t | u in s.db.rows
      ensures Truthful(s.db, u, s.db.rows[u], t)
    {
      assert Recount(s.db, u, t) == {};
    }
    RunKeeps(s, schedule);
  }

  /** In every reachable committed state, at every instant from then on, each row whose deadline is null or still
      ahead counts the visible unread messages but for those it has missed. */
  lemma CommittedRowsCountAllButTheMissed(now: int, users: map<UserId, int>, schedule: seq<Step>, u: UserId, t: int)
    requires now >= 0
    ensures var db := Run(Initial(now, users), schedule).db;
            var seen := Recount(db, u, t) - Missed(db, u);
            u in db.rows && t >= Run(Initial(now, users), schedule).now && Fresh(db.rows[u], t) ==>
              && db.rows[u].count == |seen|
              && IsMax(PublishedAt(db, seen), db.rows[u].latest)
  {
    Reached(now, users, schedule);
    var s := Run(Initial(now, users), schedule);
    assert u in s.db.rows ==> Trusted(s.db, u, s.now);
  }

  /** Such a row equals the full recount exactly when it has missed none of the visible unread messages. */
  lemma CommittedRowsTellTheTruth(now: int, users: map<UserId, int>, schedule: seq<Step>, u: UserId, t: int)
    requires now >= 0
    ensures var db := Run(Initial(now, users), schedule).db;
            var recount := Recount(db, u, t);
            u in db.rows && t >= Run(Initial(now, users), schedule).now && Fresh(db.rows[u], t) ==>
              ((db.rows[u].count == |recount| && IsMax(PublishedAt(db, recount), db.rows[u].latest))
               <==> Missed(db, u) * recount == {})
  {
    Reached(now, users, schedule);
    var s := Run(Initial(now, users), schedule);
    if u in s.db.rows && t >= s.now && Fresh(s.db.rows[u], t) {
      assert Trusted(s.db, u, s.now);
      TruthfulExactly(s.db, u, s.db.rows[u], t);
    }
  }

  /** Every reply of Status was, at some instant between its call and its return, the exact recount but for what its
      row had missed; so it was the exact recount precisely when the row had missed none of it. */
  lemma StatusIsExactInsideTheCall(now: int, users: map<UserId, int>, schedule: seq<Step>, i: nat)
    requires now >= 0 && i < |Run(Initial(now, users), schedule).answers|
    ensures var a := Run(Initial(now, users), schedule).answers[i];
            && a.startedAt <= a.exactAt <= a.returnedAt
            && a.count == |a.truth - a.missed|
            && IsMax((a.truth - a.missed).Values, a.latest)
            && ((a.count == |a.truth| && IsMax(a.truth.Values, a.latest)) <==> a.missed * a.truth.Keys == {})
  {
    Reached(now, users, schedule);
    var a := Run(Initial(now, users), schedule).answers[i];
    MissingSome(a.truth, a.missed);
  }

  lemma MissingSome(truth: map<MessageId, int>, missed: set<MessageId>)
    ensures |truth - missed| == |truth| <==> missed * truth.Keys == {}
    ensures missed * truth.Keys == {} ==> truth - missed == truth
  {
    var seen := truth - missed;
    assert seen.Keys == truth.Keys - missed;
    assert |truth.Keys| == |truth.Keys - missed| + |missed * truth.Keys| by {
      assert truth.Keys == (truth.Keys - missed) + (missed * truth.Keys);
    }
    assert |seen.Keys| == |seen| && |truth.Keys| == |truth|;
    if missed * truth.Keys == {} {
      assert forall id :: id in truth ==> id !in missed * truth.Keys;
      assert seen == truth;
    }
  }

  /** The table's check constraints hold in every committed state, whether a row is due or not. */
  lemma ConstraintsAlwaysHold(now: int, users: map<UserId, int>, schedule: seq<Step>, u: UserId)
    requires now >= 0
    ensures var rows := Run(Initial(now, users), schedule).db.rows;
            u in rows ==> rows[u].count >= 0 && (rows[u].count == 0 <==> rows[u].latest.None?)
  {
    Reached(now, users, schedule);
  }
}
