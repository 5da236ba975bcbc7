/**
When the statements of a message transaction go on and when they roll back,
told by the committed tables, and what a transaction that nobody disturbs
ends with.
*/
module MessageProgress {
  import opened Options
  import opened MessageStatus
  import opened MessageProtocol
  import opened MessageSharing
  import opened MessageTheorems
  import opened MessageEffects

  /** What the next statement demands of the committed tables. */
  ghost predicate GoesOn(op: Operation, stage: Stage, db: Db, now: int) {
    match stage
    case Insert => op.SendOp? && (op.expiry.Some? ==> now < op.expiry.value)
    case Deliver => op.SendOp? && op.recipients.Some? && op.recipients.value <= db.users.Keys
    case Mutate =>
      (match op
       case ReadOp(u, id) =>
         InInbox(db, u, id, now) && ((id, u) in db.receipts ==> db.receipts[(id, u)].deletedAt.None?)
       case DeleteOp(u, id) => InInbox(db, u, id, now)
       case ReadAllOp(_) => true
       case RetractOp(id) => id in db.messages
       case _ => false)
    case _ => true
  }

  function NextStage(op: Operation, stage: Stage): Stage {
    match stage
    case Initialize => if op.StatusOp? || op.ExpireOp? || op.SendOp? then Repair else Mutate
    case Repair => if op.SendOp? then Insert else Commit
    case Insert => if op.SendOp? && op.recipients.Some? then Deliver else Count
    case Deliver => Count
    case Count => Commit
    case Mutate => Recompute
    case Recompute => Commit
    case Commit => Commit
  }

  /** The instant a write took place, and for reading everything the messages it took for unread. */
  ghost predicate Records(tx: Transaction, next: Transaction, db: Db, now: int) {
    && next.exactAt == (if tx.stage == Repair || tx.stage == Insert || tx.stage == Mutate then now else tx.exactAt)
    && (tx.stage == Mutate && tx.op.ReadAllOp? ==>
          forall id :: id in next.truth <==> id in db.messages && InInbox(db, tx.op.user, id, now) &&
                                             Unread(db, tx.op.user, id))
    && (tx.stage == Recompute ==> next.truth == tx.truth)
  }

  lemma SendGoesOn(tx: Transaction, db: Db, now: int, sequence: MessageId)
    requires tx.stage == Insert || tx.stage == Deliver || tx.stage == Count
    requires TransactionOk(tx, db, now) && EffectSoFar(tx, db, now)
    requires tx.stage == Insert ==> sequence !in tx.work.messages
    ensures var out := RunStatement(tx, db, now, sequence);
            && (out.Continue? <==> GoesOn(tx.op, tx.stage, db, now))
            && (out.Continue? ==> out.tx.op == tx.op && out.tx.stage == NextStage(tx.op, tx.stage) &&
                                  Records(tx, out.tx, db, now))
  {
    hide CountedRow, Good, InsertRecipients, InsertMessage;
    if tx.stage == Deliver {
      var ids, known := tx.op.recipients.value, tx.work.users.Keys;
      assert ids <= known ==> ids * known == ids;
      if |ids * known| == |ids| {
        SameSize(ids * known, ids);
      }
    }
  }

  lemma MutateGoesOn(tx: Transaction, db: Db, now: int, sequence: MessageId)
    requires tx.stage == Mutate && TransactionOk(tx, db, now) && SameTables(db, tx.work)
    ensures var out := RunStatement(tx, db, now, sequence);
            && (out.Continue? <==> GoesOn(tx.op, tx.stage, db, now))
            && (out.Continue? ==> out.tx.op == tx.op && out.tx.stage == NextStage(tx.op, tx.stage) &&
                                  Records(tx, out.tx, db, now))
  {
    hide Good, MarkRead, MarkDeleted, MarkAllRead, DeleteMessage;
    if tx.op.ReadAllOp? {
      assert Truth(db, tx.op.user, now).Keys == Recount(db, tx.op.user, now);
    }
  }

  lemma RowsGoOn(tx: Transaction, db: Db, now: int, sequence: MessageId)
    requires tx.stage == Initialize || tx.stage == Repair || tx.stage == Recompute
    ensures var out := RunStatement(tx, db, now, sequence);
            && out.Continue? && out.tx.op == tx.op && out.tx.stage == NextStage(tx.op, tx.stage)
            && Records(tx, out.tx, db, now)
  {
    hide Refresh, InitRows, Truth, Missed;
  }

  /**
  In every reachable state, a statement that need not wait goes on to the next
  stage exactly if the committed tables have what it needs, and otherwise
  rolls the transaction back.
  */
  lemma StatementDecides(now: int, users: map<UserId, int>, schedule: seq<Step>, pid: Pid, sequence: MessageId)
    requires now >= 0
    requires var s := Run(Initial(now, users), schedule);
             && pid in s.open && s.open[pid].stage != Commit
             && !Waits(s, pid, Touched(s.open[pid]))
             && (s.open[pid].stage == Insert ==> sequence !in s.drawn)
    ensures var s := Run(Initial(now, users), schedule);
            Decided(s, Apply(s, Execute(pid, sequence)), pid)
  {
    hide Inv, AllSoFar, Decided, Executed, Waits;
    EffectsReached(now, users, schedule);
    StatementDecidesHere(Run(Initial(now, users), schedule), pid, sequence);
  }

  ghost predicate Decided(s: State, next: State, pid: Pid)
    requires pid in s.open
  {
    var tx := s.open[pid];
    && next.db == s.db && next.now == s.now && next.answers == s.answers
    && (forall p :: p != pid ==> (p in next.open <==> p in s.open) && (p in s.open ==> next.open[p] == s.open[p]))
    && if GoesOn(tx.op, tx.stage, s.db, s.now)
       then pid in next.open && next.open[pid].op == tx.op && next.open[pid].stage == NextStage(tx.op, tx.stage) &&
            Records(tx, next.open[pid], s.db, s.now)
       else pid !in next.open
  }

  lemma StatementGoesOn(tx: Transaction, db: Db, now: int, sequence: MessageId)
    requires tx.stage != Commit && TransactionOk(tx, db, now) && EffectSoFar(tx, db, now)
    requires tx.stage == Insert ==> sequence !in tx.work.messages
    ensures var out := RunStatement(tx, db, now, sequence);
            && (out.Continue? <==> GoesOn(tx.op, tx.stage, db, now))
            && (out.Continue? ==> out.tx.op == tx.op && out.tx.stage == NextStage(tx.op, tx.stage) &&
                                  Records(tx, out.tx, db, now))
  {
    hide TransactionOk, RunStatement, GoesOn, Records, Effect, Published, NoReceipts, SameTables;
    if tx.stage == Mutate {
      MutateGoesOn(tx, db, now, sequence);
    } else if tx.stage == Insert || tx.stage == Deliver || tx.stage == Count {
      SendGoesOn(tx, db, now, sequence);
    } else {
      RowsGoOn(tx, db, now, sequence);
      AlwaysGoesOn(tx, db, now);
    }
  }

  lemma AlwaysGoesOn(tx: Transaction, db: Db, now: int)
    requires tx.stage == Initialize || tx.stage == Repair || tx.stage == Recompute
    ensures GoesOn(tx.op, tx.stage, db, now)
  {
  }

  lemma StatementDecidesHere(s: State, pid: Pid, sequence: MessageId)
    requires Inv(s) && AllSoFar(s) && pid in s.open && s.open[pid].stage != Commit
    requires !Waits(s, pid, Touched(s.open[pid])) && (s.open[pid].stage == Insert ==> sequence !in s.drawn)
    ensures Decided(s, Executed(s, pid, sequence), pid)
  {
    hide Inv, AllSoFar, TransactionOk, EffectSoFar, Executed, RunStatement, Waits, Touched;
    var tx := s.open[pid];
    OpenHere(s, pid);
    assert tx.stage == Insert ==> sequence !in tx.work.messages;
    StatementGoesOn(tx, s.db, s.now, sequence);
    hide GoesOn, Records;
    ExecutedIs(s, pid, sequence);
    var out := RunStatement(tx, s.db, s.now, sequence);
    if out.Continue? {
      RecordsAnyLocks(tx, out.tx, s.db, s.now, tx.locked + Touched(tx));
    }
  }

  lemma OpenHere(s: State, pid: Pid)
    requires Inv(s) && AllSoFar(s) && pid in s.open
    ensures TransactionOk(s.open[pid], s.db, s.now) && EffectSoFar(s.open[pid], s.db, s.now)
    ensures s.open[pid].work.messages.Keys <= s.drawn
  {
    hide TransactionOk, EffectSoFar, SharingOk;
    assert OneOk(s.open[pid], s.db, s.now, s.drawn);
  }

  lemma ExecutedIs(s: State, pid: Pid, sequence: MessageId)
    requires pid in s.open && s.open[pid].stage != Commit
    requires !Waits(s, pid, Touched(s.open[pid])) && (s.open[pid].stage == Insert ==> sequence !in s.drawn)
    ensures var tx, next := s.open[pid], Executed(s, pid, sequence);
            var out := RunStatement(tx, s.db, s.now, sequence);
            && next.db == s.db && next.now == s.now && next.answers == s.answers
            && next.open == (if out.Continue? then s.open[pid := out.tx.(locked := tx.locked + Touched(tx))]
                             else s.open - {pid})
            && next.drawn == if tx.stage == Insert then s.drawn + {sequence} else s.drawn
  {
    hide RunStatement, Touched, Waits;
  }

  lemma RecordsAnyLocks(tx: Transaction, next: Transaction, db: Db, now: int, locked: set<UserId>)
    requires Records(tx, next, db, now)
    ensures Records(tx, next.(locked := locked), db, now)
  {
    hide InInbox, Unread;
  }

  // ----- A transaction that nobody disturbs -----

  /** What all statements of an operation demand of the committed tables. */
  ghost predicate Applicable(op: Operation, db: Db, now: int) {
    match op
    case SendOp(_, _) =>
      && GoesOn(op, Insert, db, now)
      && (op.recipients.Some? ==> GoesOn(op, Deliver, db, now))
    case StatusOp(_, _) => true
    case ExpireOp(_) => true
    case _ => GoesOn(op, Mutate, db, now)
  }

  /** How many statements are left, with the commit, on the longest way. */
  function Remaining(stage: Stage): nat {
    match stage
    case Initialize => 6
    case Repair => 5
    case Insert => 4
    case Deliver => 3
    case Count => 2
    case Mutate => 3
    case Recompute => 2
    case Commit => 1
  }

  /** The one open transaction, on its way at the instant of its last write. */
  ghost predicate Alone(s: State, pid: Pid, op: Operation, sequence: MessageId) {
    && s.open.Keys == {pid} && s.open[pid].op == op
    && s.open[pid].exactAt == s.now
    && (s.open[pid].stage in {Initialize, Repair, Insert} ==> sequence !in s.drawn)
    && (s.open[pid].stage in {Recompute, Commit} && op.ReadAllOp? ==>
          forall id :: id in s.open[pid].truth <==> id in s.db.messages && InInbox(s.db, op.user, id, s.now) &&
                                                    Unread(s.db, op.user, id))
    && FitsStage(op, s.open[pid].stage)
  }

  /** The stages an operation passes through. */
  predicate FitsStage(op: Operation, stage: Stage) {
    match stage
    case Initialize => true
    case Commit => true
    case Repair => op.StatusOp? || op.ExpireOp? || op.SendOp?
    case Insert => op.SendOp?
    case Deliver => op.SendOp? && op.recipients.Some?
    case Count => op.SendOp?
    case Mutate => !op.StatusOp? && !op.ExpireOp? && !op.SendOp?
    case Recompute => !op.StatusOp? && !op.ExpireOp? && !op.SendOp?
  }

  /** The effect of the operation as of this instant, and no transaction left open. */
  ghost predicate Done(s: State, op: Operation, end: State) {
    && end.open == map[] && end.now == s.now
    && exists tx: Transaction ::
         && tx.op == op && tx.exactAt == s.now
         && (op.ReadAllOp? ==>
               forall id :: id in tx.truth <==> id in s.db.messages && InInbox(s.db, op.user, id, s.now) &&
                                                Unread(s.db, op.user, id))
         && Effect(tx, s.db, end.db)
  }

  lemma NobodyToWaitFor(s: State, pid: Pid, users: set<UserId>)
    requires s.open.Keys == {pid}
    ensures !Waits(s, pid, users)
  {
  }

  lemma StaysAlone(s: State, pid: Pid, op: Operation, sequence: MessageId)
    requires Inv(s) && AllSoFar(s) && Alone(s, pid, op, sequence) && Applicable(op, s.db, s.now)
    requires s.open[pid].stage != Commit
    ensures var next := Apply(s, Execute(pid, sequence));
            && next.db == s.db && next.now == s.now && Alone(next, pid, op, sequence)
            && next.open[pid].stage == NextStage(op, s.open[pid].stage)
  {
    hide Inv, AllSoFar, Executed, Waits, Touched, InInbox, Unread;
    var tx := s.open[pid];
    NobodyToWaitFor(s, pid, Touched(tx));
    StatementDecidesHere(s, pid, sequence);
    ExecutedIs(s, pid, sequence);
    NeedsAreMet(op, tx.stage, s.db, s.now);
  }

  lemma NeedsAreMet(op: Operation, stage: Stage, db: Db, now: int)
    requires Applicable(op, db, now) && FitsStage(op, stage)
    ensures GoesOn(op, stage, db, now)
  {
  }

  lemma CommitsAlone(s: State, pid: Pid, op: Operation, sequence: MessageId)
    requires Inv(s) && AllSoFar(s) && Alone(s, pid, op, sequence) && s.open[pid].stage == Commit
    ensures Done(s, op, Apply(s, Execute(pid, sequence)))
  {
    hide Inv, Effect, Merge, InInbox, Unread;
    var tx := s.open[pid];
    OpenHere(s, pid);
    CommitPublishesWork(s, pid);
    assert Effect(tx, s.db, tx.work);
    StatusHasNone(tx, s.db);
    var next := Apply(s, Execute(pid, sequence));
    assert next.open == map[];
    assert Effect(tx, s.db, next.db);
  }

  function Drive(s: State, pid: Pid, sequence: MessageId, n: nat): State
    decreases n
  {
    if n == 0 then s else Drive(Apply(s, Execute(pid, sequence)), pid, sequence, n - 1)
  }

  lemma {:induction false} NothingToDrive(s: State, pid: Pid, sequence: MessageId, n: nat)
    requires pid !in s.open
    ensures Drive(s, pid, sequence, n) == s
  {
    if n > 0 {
      NothingToDrive(s, pid, sequence, n - 1);
    }
  }

  lemma {:induction false} DrivenToTheEnd(s: State, pid: Pid, op: Operation, sequence: MessageId, n: nat)
    requires Inv(s) && AllSoFar(s) && Alone(s, pid, op, sequence) && Applicable(op, s.db, s.now)
    requires Remaining(s.open[pid].stage) <= n
    ensures Done(s, op, Drive(s, pid, sequence, n))
    decreases n
  {
    hide Inv, AllSoFar, Applicable, Apply, Effect;
    var next := Apply(s, Execute(pid, sequence));
    if s.open[pid].stage == Commit {
      CommitsAlone(s, pid, op, sequence);
      NothingToDrive(next, pid, sequence, n - 1);
    } else {
      StaysAlone(s, pid, op, sequence);
      ApplyKeeps(s, Execute(pid, sequence));
      StepKeepsEffects(s, Execute(pid, sequence));
      DrivenToTheEnd(next, pid, op, sequence, n - 1);
    }
  }

  /**
  In every reachable state without open transactions, an operation that the
  tables allow and that nobody disturbs takes effect.
  */
  lemma UndisturbedOperation(now: int, users: map<UserId, int>, schedule: seq<Step>, pid: Pid, op: Operation,
                             sequence: MessageId)
    requires now >= 0
    requires var s := Run(Initial(now, users), schedule);
             && s.open == map[] && sequence !in s.drawn && Applicable(op, s.db, s.now)
             && (op.StatusOp? ==> op.startedAt <= s.now)
             && (!op.SendOp? && UsersOf(op).Some? ==> UsersOf(op).value <= s.db.users.Keys)
    ensures var s := Run(Initial(now, users), schedule);
            Done(s, op, Drive(Apply(s, Begin(pid, op)), pid, sequence, 6))
  {
    hide Inv, AllSoFar, Applicable, Effect, InInbox, Unread, Done;
    EffectsReached(now, users, schedule);
    var s := Run(Initial(now, users), schedule);
    var begun := Apply(s, Begin(pid, op));
    assert begun.db == s.db && begun.now == s.now && Alone(begun, pid, op, sequence);
    ApplyKeeps(s, Begin(pid, op));
    StepKeepsEffects(s, Begin(pid, op));
    DrivenToTheEnd(begun, pid, op, sequence, 6);
    SameDone(s, begun, op, Drive(begun, pid, sequence, 6));
  }

  lemma SameDone(s: State, begun: State, op: Operation, end: State)
    requires Done(begun, op, end) && begun.db == s.db && begun.now == s.now
    ensures Done(s, op, end)
  {
  }

  /** The call of Status is answered when it commits. */
  lemma StatusIsAnswered(now: int, users: map<UserId, int>, schedule: seq<Step>, pid: Pid, sequence: MessageId)
    requires now >= 0
    requires var s := Run(Initial(now, users), schedule);
             pid in s.open && s.open[pid].stage == Commit && s.open[pid].op.StatusOp?
    ensures var s := Run(Initial(now, users), schedule);
            var before, after := s.answers, Apply(s, Execute(pid, sequence)).answers;
            && |after| == |before| + 1 && before <= after
            && after[|before|].user == s.open[pid].op.user
            && after[|before|].startedAt == s.open[pid].op.startedAt && after[|before|].returnedAt == s.now
  {
    hide Inv, Effect, Merge;
    EffectsReached(now, users, schedule);
    var s := Run(Initial(now, users), schedule);
    assert EffectSoFar(s.open[pid], s.db, s.now);
    assert s.open[pid].op.user in Own(s.open[pid]);
  }
}
