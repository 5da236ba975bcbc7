/**
Transactions that share the gate: what one of them commits does not disturb the others.
*/
module MessageSharing {
  import opened Options
  import opened MessageStatus
  import opened MessageProtocol

  // ----- Statements -----

  /** A statement writes only what its locks and its own message allow. */
  lemma StatementAgrees(tx: Transaction, db: Db, now: int, sequence: MessageId)
    requires now >= 0 && TransactionOk(tx, db, now) && tx.stage != Commit && !Exclusive(tx)
    requires Agrees(tx, db) && LocksOk(tx)
    requires tx.stage == Insert ==> sequence !in tx.work.messages
    ensures var out := RunStatement(tx, db, now, sequence);
            out.Continue? ==> var next := out.tx.(locked := tx.locked + Touched(tx)); Agrees(next, db) && LocksOk(next)
  {
    if tx.stage == Initialize {
      InitializeAgrees(tx, db, now, sequence);
    } else if tx.stage == Repair || tx.stage == Recompute {
      RefreshAgrees(tx, db, now, sequence);
    } else if tx.stage == Count {
      CountAgrees(tx, db, now, sequence);
    } else if tx.stage == Insert {
      InsertAgrees(tx, db, now, sequence);
    } else if tx.stage == Deliver {
      DeliverAgrees(tx, db, now, sequence);
    } else {
      MutateAgrees(tx, db, now, sequence);
    }
  }

  /** What the next transaction may write includes what this one may. */
  ghost predicate MayWriteMore(tx: Transaction, next: Transaction) {
    && tx.locked <= next.locked
    && forall k :: Writes(tx, k) ==> Writes(next, k)
  }

  lemma ReceiptsStillAgree(tx: Transaction, next: Transaction, db: Db)
    requires ReceiptsAgree(tx, db) && MayWriteMore(tx, next)
    requires forall k :: !Writes(next, k) ==> SameReceipt(tx.work, next.work, k)
    requires tx.work.receipts.Keys <= next.work.receipts.Keys
    ensures ReceiptsAgree(next, db)
  {
    forall k | !Writes(next, k) ensures SameReceipt(db, next.work, k) {
      assert !Writes(tx, k);
      assert SameReceipt(db, tx.work, k) && SameReceipt(tx.work, next.work, k);
    }
  }

  lemma RowsStillAgree(tx: Transaction, next: Transaction, db: Db)
    requires RowsAgree(tx, db) && MayWriteMore(tx, next)
    requires forall u :: u !in next.locked ==> SameRow(tx.work, next.work, u)
    ensures RowsAgree(next, db)
  {
    forall u | u !in next.locked ensures SameRow(db, next.work, u) {
      assert SameRow(db, tx.work, u) && SameRow(tx.work, next.work, u);
    }
  }

  /** Nothing is missed anew but the message the transaction has just delivered. */
  lemma MissedStillAgrees(tx: Transaction, next: Transaction, db: Db)
    requires MissedAgrees(tx, db) && tx.locked <= next.locked
    requires forall k: (MessageId, UserId) :: k.1 !in next.locked ==>
               ((k in next.work.receipts && k.0 !in db.messages) <==> (k in tx.work.receipts && k.0 !in db.messages))
    requires forall k: (MessageId, UserId) :: k.1 !in next.locked ==> (k in next.work.missed <==> k in tx.work.missed)
    ensures MissedAgrees(next, db)
  {
  }

  lemma InitializeAgrees(tx: Transaction, db: Db, now: int, sequence: MessageId)
    requires TransactionOk(tx, db, now) && !Exclusive(tx) && Agrees(tx, db) && LocksOk(tx)
    requires tx.stage == Initialize
    ensures var out := RunStatement(tx, db, now, sequence);
            out.Continue? ==> var next := out.tx.(locked := tx.locked + Touched(tx)); Agrees(next, db) && LocksOk(next)
  {
    var next := RunStatement(tx, db, now, sequence).tx.(locked := tx.locked + Touched(tx));
    ReceiptsStillAgree(tx, next, db);
    RowsStillAgree(tx, next, db);
    MissedStillAgrees(tx, next, db);
  }

  /** A recount writes rows it has locked. */
  lemma RefreshAgrees(tx: Transaction, db: Db, now: int, sequence: MessageId)
    requires TransactionOk(tx, db, now) && !Exclusive(tx) && Agrees(tx, db) && LocksOk(tx)
    requires tx.stage == Repair || tx.stage == Recompute
    ensures var out := RunStatement(tx, db, now, sequence);
            out.Continue? ==> var next := out.tx.(locked := tx.locked + Touched(tx)); Agrees(next, db) && LocksOk(next)
  {
    hide Good, RefreshedRow, Truth, Missed;
    var next := RunStatement(tx, db, now, sequence).tx.(locked := tx.locked + Touched(tx));
    ReceiptsStillAgree(tx, next, db);
    RowsStillAgree(tx, next, db);
    MissedStillAgrees(tx, next, db);
  }

  lemma CountAgrees(tx: Transaction, db: Db, now: int, sequence: MessageId)
    requires TransactionOk(tx, db, now) && !Exclusive(tx) && Agrees(tx, db) && LocksOk(tx)
    requires tx.stage == Count
    ensures var out := RunStatement(tx, db, now, sequence);
            out.Continue? ==> var next := out.tx.(locked := tx.locked + Touched(tx)); Agrees(next, db) && LocksOk(next)
  {
    hide Good, Greatest, Least;
    GoodIsWellFormed(tx.work, now, Some({}));
    var next := RunStatement(tx, db, now, sequence).tx.(locked := tx.locked + Touched(tx));
    ReceiptsStillAgree(tx, next, db);
    RowsStillAgree(tx, next, db);
    MissedStillAgrees(tx, next, db);
    CountedAreNotMissed(tx, next, now);
  }

  /** After its count no row misses the message of a send. */
  lemma CountedAreNotMissed(tx: Transaction, next: Transaction, now: int)
    requires Sending(tx, now) && Delivered(tx)
    requires next.work == AddStatus(tx.work, tx.message, UsersOf(tx.op), tx.work.messages[tx.message].publishedAt,
                                    tx.op.expiry)
    ensures forall u :: (tx.message, u) !in next.work.missed
  {
    hide Trusted;
    forall u ensures (tx.message, u) !in next.work.missed {
      if (tx.message, u) in tx.work.missed {
        assert (tx.message, u).1 in tx.work.rows;
        assert CountedFor(tx.work, UsersOf(tx.op), tx.work.messages[tx.message].publishedAt, u);
      }
    }
  }

  lemma InsertAgrees(tx: Transaction, db: Db, now: int, sequence: MessageId)
    requires TransactionOk(tx, db, now) && !Exclusive(tx) && Agrees(tx, db) && LocksOk(tx)
    requires tx.stage == Insert && sequence !in tx.work.messages
    ensures var out := RunStatement(tx, db, now, sequence);
            out.Continue? ==> var next := out.tx.(locked := tx.locked + Touched(tx)); Agrees(next, db) && LocksOk(next)
  {
    var out := RunStatement(tx, db, now, sequence);
    if out.Continue? {
      var next := out.tx.(locked := tx.locked + Touched(tx));
      assert forall u :: (sequence, u) !in tx.work.receipts;
      ReceiptsStillAgree(tx, next, db);
      RowsStillAgree(tx, next, db);
      MissedStillAgrees(tx, next, db);
    }
  }

  lemma InsertedRecipients(db: Db, id: MessageId, ids: set<UserId>, k: (MessageId, UserId))
    ensures var after := InsertRecipients(db, id, ids);
            && (k.0 != id ==> SameReceipt(db, after, k) && (k in after.missed <==> k in db.missed))
            && (k.0 == id ==> (k in after.receipts <==> k in db.receipts || (k.1 in ids && k.1 in db.users)))
            && (k.0 == id ==> (k in after.missed <==>
                               k in db.missed || (k.1 in ids && k.1 in db.users && k.1 in db.rows)))
  {
    var u := k.1;
    assert k == (k.0, u);
    if k.0 == id && u in ids && u in db.users {
      assert (id, u) in InsertRecipients(db, id, ids).receipts;
    }
  }

  lemma DeliverAgrees(tx: Transaction, db: Db, now: int, sequence: MessageId)
    requires TransactionOk(tx, db, now) && !Exclusive(tx) && Agrees(tx, db) && LocksOk(tx)
    requires tx.stage == Deliver
    ensures var out := RunStatement(tx, db, now, sequence);
            out.Continue? ==> var next := out.tx.(locked := tx.locked + Touched(tx)); Agrees(next, db) && LocksOk(next)
  {
    hide InsertRecipients, Agrees, LocksOk, Good;
    var out := RunStatement(tx, db, now, sequence);
    if out.Continue? {
      var next := out.tx.(locked := tx.locked + Touched(tx));
      assert tx.locked + {} == tx.locked;
      assert Undelivered(tx);
      DeliveredAgrees(tx, next, db, tx.op.recipients.value);
    }
  }

  lemma DeliveredAgrees(tx: Transaction, next: Transaction, db: Db, ids: set<UserId>)
    requires !Exclusive(tx) && Agrees(tx, db) && LocksOk(tx) && tx.stage == Deliver && tx.op.SendOp?
    requires ids == Own(tx) && Undelivered(tx)
    requires next == tx.(work := InsertRecipients(tx.work, tx.message, ids), stage := Count)
    ensures Agrees(next, db) && LocksOk(next)
  {
    hide InsertRecipients;
    DeliveryKeepsRest(tx.work, tx.message, ids);
    forall k | !Writes(next, k) ensures SameReceipt(tx.work, next.work, k) {
      InsertedRecipients(tx.work, tx.message, ids, k);
    }
    ReceiptsStillAgree(tx, next, db);
    RowsStillAgree(tx, next, db);
    forall k: (MessageId, UserId) | k.1 !in next.locked
      ensures k in next.work.missed <==>
              k in db.missed || (k in next.work.receipts && k.1 in db.rows && k.0 !in db.messages)
    {
      InsertedRecipients(tx.work, tx.message, ids, k);
      var u := k.1;
      assert k == (k.0, u) && (tx.message, u) !in tx.work.receipts;
      DeliveredIsMissed(tx, next, db, k);
    }
    forall u | (next.message, u) in next.work.receipts ensures u in Own(next) {
      InsertedRecipients(tx.work, tx.message, ids, (next.message, u));
    }
  }

  lemma DeliveredIsMissed(tx: Transaction, next: Transaction, db: Db, k: (MessageId, UserId))
    requires Agrees(tx, db) && HasMessage(tx) && Undelivered(tx) && k.1 !in tx.locked
    requires k.0 != tx.message ==>
             SameReceipt(tx.work, next.work, k) && (k in next.work.missed <==> k in tx.work.missed)
    requires k.0 == tx.message ==>
             (k in next.work.missed <==> k in tx.work.missed || (k in next.work.receipts && k.1 in tx.work.rows))
    ensures k in next.work.missed <==>
            k in db.missed || (k in next.work.receipts && k.1 in db.rows && k.0 !in db.messages)
  {
    assert k == (k.0, k.1);
    assert SameRow(db, tx.work, k.1);
  }

  lemma DeliveryKeepsRest(db: Db, id: MessageId, ids: set<UserId>)
    ensures var after := InsertRecipients(db, id, ids);
            after.users == db.users && after.messages == db.messages && after.rows == db.rows &&
                db.receipts.Keys <= after.receipts.Keys
  {
  }

  /** A mutation writes receipts of its own users alone. */
  lemma MutateWrites(tx: Transaction, db: Db, now: int, sequence: MessageId)
    requires !Exclusive(tx) && tx.stage == Mutate
    ensures var out := RunStatement(tx, db, now, sequence);
            out.Continue? ==>
              && !tx.op.SendOp? && out.tx.op == tx.op && out.tx.stage == Recompute && out.tx.message == tx.message
              && out.tx.locked == tx.locked
              && out.tx.work.users == tx.work.users && out.tx.work.messages == tx.work.messages
              && out.tx.work.rows == tx.work.rows && out.tx.work.missed == tx.work.missed
              && tx.work.receipts.Keys <= out.tx.work.receipts.Keys
              && forall k :: !Writes(out.tx, k) ==> SameReceipt(tx.work, out.tx.work, k)
  {
    hide CanRead, InInbox, Recount;
  }

  lemma MutateAgrees(tx: Transaction, db: Db, now: int, sequence: MessageId)
    requires TransactionOk(tx, db, now) && !Exclusive(tx) && Agrees(tx, db) && LocksOk(tx)
    requires tx.stage == Mutate
    ensures var out := RunStatement(tx, db, now, sequence);
            out.Continue? ==> var next := out.tx.(locked := tx.locked + Touched(tx)); Agrees(next, db) && LocksOk(next)
  {
    hide TransactionOk, RunStatement;
    var out := RunStatement(tx, db, now, sequence);
    if out.Continue? {
      var next := out.tx.(locked := tx.locked + Touched(tx));
      MutateWrites(tx, db, now, sequence);
      assert forall k :: Writes(next, k) <==> Writes(out.tx, k);
      ReceiptsStillAgree(tx, next, db);
      RowsStillAgree(tx, next, db);
      OnlyOwnReceipts(tx, next, db);
      MissedStillAgrees(tx, next, db);
    }
  }

  /** A mutation writes receipts of users whose rows it has locked. */
  lemma OnlyOwnReceipts(tx: Transaction, next: Transaction, db: Db)
    requires !Exclusive(tx) && !tx.op.SendOp? && tx.stage != Initialize && LocksOk(tx) && tx.locked <= next.locked
    requires forall k :: !Writes(next, k) ==> SameReceipt(tx.work, next.work, k)
    requires next.op == tx.op
    ensures forall k: (MessageId, UserId) :: k.1 !in next.locked ==>
                                             (k in next.work.receipts <==> k in tx.work.receipts)
  {
    forall k: (MessageId, UserId) | k.1 !in next.locked ensures k in next.work.receipts <==> k in tx.work.receipts {
      assert !Writes(next, k);
    }
  }

  // ----- Commits -----

  /** For an undisturbed transaction publishing its writes is publishing what it sees. */
  lemma CommitIsWork(tx: Transaction, db: Db)
    requires SharingOk(tx, db) && WellFormed(tx.work)
    ensures Merge(db, tx) == tx.work
  {
    if !Exclusive(tx) {
      var merged := Merge(db, tx);
      forall id ensures id in merged.messages <==> id in tx.work.messages
                ensures id in merged.messages ==> merged.messages[id] == tx.work.messages[id] {
      }
      assert merged.messages == tx.work.messages;
      forall k ensures SameReceipt(merged, tx.work, k) {
        MergedReceipt(db, tx, k);
        assert !Writes(tx, k) ==> SameReceipt(db, tx.work, k);
        assert k in db.receipts ==> k in tx.work.receipts;
      }
      SameReceiptsEqual(merged, tx.work);
      forall u ensures SameRow(merged, tx.work, u) {
        MergedRow(db, tx, u);
        assert u !in tx.locked ==> SameRow(db, tx.work, u);
      }
      SameRowsEqual(merged, tx.work);
      CommitMissesWork(tx, db);
    }
  }

  lemma CommitMissesWork(tx: Transaction, db: Db)
    requires Agrees(tx, db) && WellFormed(tx.work)
    ensures MergedMissed(db, tx) == tx.work.missed
  {
    forall k: (MessageId, UserId) ensures k in MergedMissed(db, tx) <==> k in tx.work.missed {
      assert k in db.receipts ==> k in tx.work.receipts && k.0 in tx.work.messages;
    }
  }

  lemma MergedReceipt(db: Db, tx: Transaction, k: (MessageId, UserId))
    requires !Exclusive(tx)
    ensures SameReceipt(if k in tx.work.receipts && Writes(tx, k) then tx.work else db, Merge(db, tx), k)
  {
    hide MergedMissed;
  }

  lemma MergedRow(db: Db, tx: Transaction, u: UserId)
    requires !Exclusive(tx)
    ensures SameRow(if u in tx.locked then tx.work else db, Merge(db, tx), u)
  {
    hide MergedMissed;
  }

  /** A row does not count what it had missed before, nor what only the other side has delivered to it. */
  lemma MergedMiss(db: Db, tx: Transaction, k: (MessageId, UserId))
    requires !Exclusive(tx)
    ensures k in Merge(db, tx).missed <==>
            if k.1 in tx.locked
            then k in tx.work.missed || (k in db.receipts && k.1 in tx.work.rows && k.0 !in tx.work.messages)
            else k in db.missed || (k in tx.work.receipts && k.1 in db.rows && k.0 !in db.messages)
  {
  }

  lemma SameReceiptsEqual(a: Db, b: Db)
    requires forall k :: SameReceipt(a, b, k)
    ensures a.receipts == b.receipts
  {
    forall k ensures k in a.receipts <==> k in b.receipts
             ensures k in a.receipts ==> a.receipts[k] == b.receipts[k] {
      assert SameReceipt(a, b, k);
    }
  }

  lemma SameRowsEqual(a: Db, b: Db)
    requires forall u :: SameRow(a, b, u)
    ensures a.rows == b.rows
  {
    forall u ensures u in a.rows <==> u in b.rows
             ensures u in a.rows ==> a.rows[u] == b.rows[u] {
      assert SameRow(a, b, u);
    }
  }

  /** A transaction that is about to commit what nobody else may write. */
  ghost predicate Committable(tx: Transaction, db: Db) {
    !Exclusive(tx) && tx.stage == Commit && Agrees(tx, db) && LocksOk(tx)
  }

  lemma LockedByOne(tx: Transaction, other: Transaction, u: UserId)
    requires Apart(tx, other)
    ensures !(u in tx.locked && u in other.locked)
  {
    assert u in tx.locked && u in other.locked ==> u in tx.locked * other.locked;
  }

  /** The other transaction sees the commit and nothing else changes for it. */
  lemma MergeAgrees(tx: Transaction, other: Transaction, db: Db)
    requires Committable(tx, db) && SharingOk(other, db) && Apart(tx, other)
    requires WellFormed(other.work) && WellFormed(tx.work)
    ensures SharingOk(Merged(other, tx), tx.work)
  {
    hide MergedMissed;
    var next := Merged(other, tx);
    if other.stage == Initialize {
      CommitIsWork(tx, db);
    }
    assert MessagesAgree(next, tx.work);
    forall k | !Writes(next, k) ensures SameReceipt(tx.work, next.work, k) {
      MergedReceipt(other.work, tx, k);
      assert !Writes(other, k);
      assert SameReceipt(db, other.work, k);
      assert !Writes(tx, k) ==> SameReceipt(db, tx.work, k);
    }
    forall u | u !in next.locked ensures SameRow(tx.work, next.work, u) {
      MergedRow(other.work, tx, u);
      assert SameRow(db, other.work, u);
      assert u !in tx.locked ==> SameRow(db, tx.work, u);
    }
    assert LocksOk(next) by {
      MessageStaysLocked(tx, other, db);
    }
    MissesAgree(tx, other, db);
  }

  /** Whatever the order of two commits, the rows miss the same. */
  lemma MissesAgree(tx: Transaction, other: Transaction, db: Db)
    requires Committable(tx, db) && !Exclusive(other) && Agrees(other, db) && Apart(tx, other)
    requires WellFormed(other.work) && WellFormed(tx.work)
    ensures MissedAgrees(Merged(other, tx), tx.work)
  {
    hide Merge;
    var next := Merged(other, tx);
    forall k: (MessageId, UserId) | k.1 !in other.locked
      ensures k in next.work.missed <==>
              k in tx.work.missed || (k in next.work.receipts && k.1 in tx.work.rows && k.0 !in tx.work.messages)
    {
      MergedMiss(other.work, tx, k);
      MergedReceipt(other.work, tx, k);
      assert SameRow(db, other.work, k.1);
      var id := k.0;
      assert k in tx.work.receipts ==> id in tx.work.messages;
      assert k in other.work.receipts ==> id in other.work.messages;
      assert id in tx.work.messages && id in other.work.messages ==> id in db.messages;
      assert id in db.messages ==> id in tx.work.messages && id in other.work.messages;
      if k.1 !in tx.locked {
        assert SameRow(db, tx.work, k.1);
        assert k in other.work.missed <==>
               k in db.missed || (k in other.work.receipts && k.1 in db.rows && k.0 !in db.messages);
        assert k in tx.work.missed <==>
               k in db.missed || (k in tx.work.receipts && k.1 in db.rows && k.0 !in db.messages);
      }
    }
  }

  lemma MessageStaysLocked(tx: Transaction, other: Transaction, db: Db)
    requires Committable(tx, db) && SharingOk(other, db) && Apart(tx, other)
    requires WellFormed(other.work) && WellFormed(tx.work)
    ensures LocksOk(Merged(other, tx))
  {
    hide MergedMissed;
    var next := Merged(other, tx);
    if HasMessage(other) {
      forall u | (other.message, u) in next.work.receipts ensures u in Own(other) {
        MergedReceipt(other.work, tx, (other.message, u));
        assert other.message !in tx.work.messages;
      }
      forall u | u in other.locked && other.stage == Commit ensures (other.message, u) !in next.work.missed {
        LockedByOne(tx, other, u);
        SentIsMissedAlike(tx, other, db, u);
      }
    }
  }

  // ----- What the others believe -----

  /** A database that has all that is committed, and beyond it at most another send's message. */
  ghost predicate Compatible(base: Db, db: Db, tx: Transaction) {
    && base.users == db.users
    && (forall id :: id in db.messages ==> id in base.messages && base.messages[id] == db.messages[id])
    && (forall id :: id in base.messages && id !in db.messages ==>
          base.messages[id].scope == Targeted && (HasMessage(tx) ==> id != tx.message))
    && (forall k: (MessageId, UserId) :: k.1 in tx.locked && k.0 in db.messages ==> SameReceipt(db, base, k))
  }

  lemma MergedMessages(base: Db, db: Db, tx: Transaction)
    requires Committable(tx, db) && Compatible(base, db, tx)
    ensures Merge(base, tx).users == base.users
    ensures forall id :: id in Merge(base, tx).messages <==> id in base.messages || id in tx.work.messages
    ensures forall id :: id in base.messages ==> Merge(base, tx).messages[id] == base.messages[id]
    ensures forall id :: id in tx.work.messages ==> Merge(base, tx).messages[id] == tx.work.messages[id]
  {
    hide MergedMissed;
  }

  /** What a row counts of a message it has not missed: the message is there, and the receipt says unread. */
  predicate Counts(db: Db, u: UserId, id: MessageId, t: int) {
    InInbox(db, u, id, t) && Unread(db, u, id) && (id, u) !in db.missed
  }

  lemma CountedIsCounts(db: Db, u: UserId, t: int)
    ensures forall id :: id in Counted(db, u, t) <==> Counts(db, u, id, t)
  {
  }

  /** Users whose rows are not locked have the same messages counted before and after the commit. */
  lemma UnlockedCounts(base: Db, db: Db, tx: Transaction, u: UserId, id: MessageId, t: int)
    requires Committable(tx, db) && Compatible(base, db, tx) && WellFormed(base) && WellFormed(tx.work)
    requires u !in tx.locked && u in base.rows
    ensures Counts(Merge(base, tx), u, id, t) <==> Counts(base, u, id, t)
  {
    hide Merge;
    var k := (id, u);
    MergedMessages(base, db, tx);
    MergedReceipt(base, tx, k);
    MergedMiss(base, tx, k);
    assert Writes(tx, k) ==> tx.op.SendOp? && id == tx.message;
    assert k in base.receipts ==> id in base.messages;
  }

  /** The locked users have those messages counted that the committing transaction counted. */
  lemma LockedCounts(base: Db, db: Db, tx: Transaction, u: UserId, id: MessageId, t: int)
    requires Committable(tx, db) && Compatible(base, db, tx) && WellFormed(base) && WellFormed(tx.work) &&
             WellFormed(db)
    requires u in tx.locked && u in tx.work.rows
    ensures Counts(Merge(base, tx), u, id, t) <==> Counts(tx.work, u, id, t)
  {
    hide Merge;
    var k := (id, u);
    MergedMessages(base, db, tx);
    MergedReceipt(base, tx, k);
    MergedMiss(base, tx, k);
    assert k in base.receipts ==> id in base.messages;
    assert k in tx.work.receipts ==> id in tx.work.messages;
    if id in tx.work.messages {
      LockedReceipt(base, db, tx, k);
    }
  }

  lemma LockedReceipt(base: Db, db: Db, tx: Transaction, k: (MessageId, UserId))
    requires Committable(tx, db) && Compatible(base, db, tx) && WellFormed(base) && WellFormed(db)
    requires k.1 in tx.locked && k.0 in tx.work.messages
    ensures SameReceipt(tx.work, Merge(base, tx), k)
  {
    hide Merge;
    MergedReceipt(base, tx, k);
    var id := k.0;
    if id in db.messages {
      assert SameReceipt(db, base, k);
      assert !Writes(tx, k) ==> SameReceipt(db, tx.work, k);
    } else {
      assert id == tx.message && id !in base.messages;
      assert k !in base.receipts && Writes(tx, k);
    }
  }

  lemma UnknownMessageHasNoReceipt(tx: Transaction, id: MessageId, u: UserId)
    requires WellFormed(tx.work) && id !in tx.work.messages
    ensures (id, u) !in tx.work.receipts && (id, u) !in tx.work.missed
  {
    assert (id, u) in tx.work.receipts ==> (id, u).0 in tx.work.messages;
    assert (id, u) in tx.work.missed ==> (id, u).0 in tx.work.messages;
  }

  lemma MergedIsWellFormed(base: Db, db: Db, tx: Transaction)
    requires Committable(tx, db) && Compatible(base, db, tx) && WellFormed(base) && WellFormed(tx.work)
    ensures WellFormed(Merge(base, tx))
  {
    var merged := Merge(base, tx);
    MergedMessages(base, db, tx);
    forall u | u in merged.rows ensures RowShape(merged.rows[u]) && u in merged.users {
      MergedRow(base, tx, u);
    }
    forall k | k in merged.receipts ensures k.0 in merged.messages && k.1 in merged.users {
      MergedReceipt(base, tx, k);
      var id := k.0;
      if k in tx.work.receipts && Writes(tx, k) {
        assert id in tx.work.messages;
      } else {
        assert k in base.receipts && id in base.messages;
      }
      assert id in merged.messages;
    }
    forall k | k in merged.missed ensures k.0 in merged.messages && k.1 in merged.rows {
      MergedMissIsKnown(base, db, tx, k);
    }
  }

  lemma MergedMissIsKnown(base: Db, db: Db, tx: Transaction, k: (MessageId, UserId))
    requires Committable(tx, db) && Compatible(base, db, tx) && WellFormed(base) && WellFormed(tx.work)
    ensures k in Merge(base, tx).missed ==> k.0 in Merge(base, tx).messages && k.1 in Merge(base, tx).rows
  {
    hide Merge;
    MergedMessages(base, db, tx);
    MergedMiss(base, tx, k);
    MergedRow(base, tx, k.1);
    var (id, u) := k;
    assert k in tx.work.receipts || k in tx.work.missed ==> id in tx.work.messages;
    assert k in base.receipts || k in base.missed ==> id in base.messages;
    assert k in base.missed ==> u in base.rows;
    assert k in tx.work.missed ==> u in tx.work.rows;
  }

  lemma TrustAcross(source: Db, merged: Db, u: UserId, now: int)
    requires u in source.rows && u in merged.rows && merged.rows[u] == source.rows[u] && Trusted(source, u, now)
    requires forall t :: Counted(merged, u, t) == Counted(source, u, t)
    requires forall id :: id in source.messages ==> id in merged.messages && merged.messages[id] == source.messages[id]
    ensures Trusted(merged, u, now)
  {
    hide Counted;
    TrustedTransfers(source, merged, u, now);
  }

  lemma MergedRowIsTrusted(base: Db, db: Db, tx: Transaction, now: int, u: UserId)
    requires Committable(tx, db) && Compatible(base, db, tx) && WellFormed(base) && WellFormed(tx.work) &&
             WellFormed(db)
    requires u in Merge(base, tx).rows
    requires var source := if u in tx.locked then tx.work else base; u in source.rows ==> Trusted(source, u, now)
    ensures Trusted(Merge(base, tx), u, now)
  {
    hide Merge;
    var merged := Merge(base, tx);
    MergedRow(base, tx, u);
    MergedMessages(base, db, tx);
    hide Trusted, Counted, Counts, WellFormed, Compatible;
    var source := if u in tx.locked then tx.work else base;
    forall t ensures Counted(merged, u, t) == Counted(source, u, t) {
      CountedIsCounts(merged, u, t);
      CountedIsCounts(source, u, t);
      forall id ensures Counts(merged, u, id, t) <==> Counts(source, u, id, t) {
        if u in tx.locked {
          LockedCounts(base, db, tx, u, id, t);
        } else {
          UnlockedCounts(base, db, tx, u, id, t);
        }
      }
    }
    TrustAcross(source, merged, u, now);
  }

  /** A commit keeps every row another database is entitled to rely on, and adds those it repaired. */
  lemma MergedIsGood(base: Db, db: Db, tx: Transaction, now: int, stale: Option<set<UserId>>)
    requires Committable(tx, db) && Compatible(base, db, tx) && WellFormed(db)
    requires Good(base, now, stale) && Good(tx.work, now, Some({}))
    ensures Good(Merge(base, tx), now, stale)
  {
    var merged := Merge(base, tx);
    MergedIsWellFormed(base, db, tx);
    hide WellFormed, Trusted;
    forall u | u in merged.rows && !Chosen(stale, u) ensures Trusted(merged, u, now) {
      MergedRowIsTrusted(base, db, tx, now, u);
    }
  }

  /** What an open transaction sees is compatible with a commit of another one. */
  lemma OthersAreCompatible(tx: Transaction, other: Transaction, db: Db)
    requires Committable(tx, db) && !Exclusive(other) && Agrees(other, db) && LocksOk(other) && Apart(tx, other)
    requires WellFormed(db) && WellFormed(other.work)
    ensures Compatible(other.work, db, tx)
  {
    forall k: (MessageId, UserId) | k.1 in tx.locked && k.0 in db.messages ensures SameReceipt(db, other.work, k) {
      NotTheirReceipt(tx, other, db, k);
    }
  }

  lemma NotTheirReceipt(tx: Transaction, other: Transaction, db: Db, k: (MessageId, UserId))
    requires Committable(tx, db) && !Exclusive(other) && Agrees(other, db) && LocksOk(other) && Apart(tx, other)
    requires k.1 in tx.locked && k.0 in db.messages
    ensures SameReceipt(db, other.work, k)
  {
    LockedByOne(tx, other, k.1);
    if Writes(other, k) {
      assert !other.op.SendOp?;
      assert other.stage == Initialize;
    }
  }

  /** The message being sent keeps its receipts. */
  lemma SentReceiptsStay(tx: Transaction, other: Transaction, db: Db, u: UserId)
    requires Committable(tx, db) && !Exclusive(other) && Agrees(other, db) && Apart(tx, other)
    requires WellFormed(tx.work) && HasMessage(other)
    ensures SameReceipt(other.work, Merge(other.work, tx), (other.message, u))
  {
    var k := (other.message, u);
    MergedReceipt(other.work, tx, k);
    assert other.message !in tx.work.messages;
    UnknownMessageHasNoReceipt(tx, other.message, u);
  }

  /** Rows the commit adds have missed the message being sent, if it is addressed to them, and no others begin to. */
  lemma SentIsMissedAlike(tx: Transaction, other: Transaction, db: Db, u: UserId)
    requires Committable(tx, db) && !Exclusive(other) && Agrees(other, db) && Apart(tx, other)
    requires WellFormed(tx.work) && HasMessage(other)
    ensures var k := (other.message, u);
            k in Merge(other.work, tx).missed <==>
            if u in tx.locked then k in other.work.receipts && u in tx.work.rows else k in other.work.missed
  {
    var k := (other.message, u);
    MergedMiss(other.work, tx, k);
    assert other.message !in tx.work.messages;
    UnknownMessageHasNoReceipt(tx, other.message, u);
  }

  lemma SendingStays(tx: Transaction, other: Transaction, db: Db, now: int)
    requires Committable(tx, db) && !Exclusive(other) && Agrees(other, db) && LocksOk(other) && Apart(tx, other)
    requires Good(db, now, Some({})) && Good(tx.work, now, Some({}))
    requires HasMessage(other) && Sending(other, now)
    ensures Sending(Merged(other, tx), now)
  {
    hide Trusted;
    OthersAreCompatible(tx, other, db);
    MergedIsGood(other.work, db, tx, now, Some({}));
    MergedMessages(other.work, db, tx);
  }

  lemma DeliveredStays(tx: Transaction, other: Transaction, db: Db)
    requires Committable(tx, db) && !Exclusive(other) && Agrees(other, db) && LocksOk(other) && Apart(tx, other)
    requires WellFormed(db) && WellFormed(tx.work) && WellFormed(other.work)
    requires HasMessage(other)
    ensures Undelivered(other) ==> Undelivered(Merged(other, tx))
    ensures Delivered(other) ==> Delivered(Merged(other, tx))
  {
    forall u ensures SameReceipt(other.work, Merge(other.work, tx), (other.message, u)) {
      SentReceiptsStay(tx, other, db, u);
    }
    OthersAreCompatible(tx, other, db);
    MergedMessages(other.work, db, tx);
    if Undelivered(other) {
      forall u ensures (other.message, u) !in Merge(other.work, tx).missed {
        SentIsMissedAlike(tx, other, db, u);
      }
    }
    if Delivered(other) {
      StillReaches(tx, other, db);
    }
  }

  lemma StillReaches(tx: Transaction, other: Transaction, db: Db)
    requires Committable(tx, db) && !Exclusive(other) && Agrees(other, db) && LocksOk(other) && Apart(tx, other)
    requires WellFormed(tx.work) && WellFormed(other.work) && HasMessage(other) && Delivered(other)
    requires forall u :: SameReceipt(other.work, Merge(other.work, tx), (other.message, u))
    requires Merge(other.work, tx).users == other.work.users
    requires other.message in Merge(other.work, tx).messages
    requires Merge(other.work, tx).messages[other.message] == other.work.messages[other.message]
    ensures Delivered(Merged(other, tx))
  {
    hide Merge;
    var merged := Merge(other.work, tx);
    forall u | (other.message, u) in merged.receipts
      ensures merged.receipts[(other.message, u)] == Receipt(None, None) {
      assert SameReceipt(other.work, merged, (other.message, u));
    }
    forall u | u in merged.users ensures (other.message, u) in merged.receipts <==> u in Own(other) {
      assert SameReceipt(other.work, merged, (other.message, u));
    }
    forall u | u in merged.rows ensures (other.message, u) in merged.missed <==> u in merged.users && u in Own(other) {
      SentIsMissedAlike(tx, other, db, u);
      MergedRow(other.work, tx, u);
    }
  }

  lemma StageStays(tx: Transaction, other: Transaction, db: Db, now: int)
    requires Committable(tx, db) && !Exclusive(other) && Agrees(other, db) && LocksOk(other) && Apart(tx, other)
    requires Good(db, now, Some({})) && Good(tx.work, now, Some({}))
    requires StageOk(other, now)
    ensures StageOk(Merged(other, tx), now)
  {
    hide Undelivered, Delivered, Merge, Good;
    GoodIsWellFormed(db, now, Some({}));
    GoodIsWellFormed(tx.work, now, Some({}));
    if other.stage == Deliver || other.stage == Count {
      GoodIsWellFormed(other.work, now, Some({}));
      SendingStays(tx, other, db, now);
      DeliveredStays(tx, other, db);
    } else {
      var stale := if other.stage == Recompute then UsersOf(other.op) else Some({});
      GoodIsWellFormed(other.work, now, stale);
      OthersAreCompatible(tx, other, db);
      MergedIsGood(other.work, db, tx, now, stale);
      ReplyStays(tx, other, now);
    }
  }

  lemma GoodIsWellFormed(db: Db, now: int, stale: Option<set<UserId>>)
    requires Good(db, now, stale)
    ensures WellFormed(db)
  {
  }

  lemma ReplyStays(tx: Transaction, other: Transaction, now: int)
    requires !Exclusive(tx) && Apart(tx, other) && LocksOk(other)
    requires other.stage == Commit ==> ReplyExact(other, now)
    ensures other.stage == Commit ==> ReplyExact(Merged(other, tx), now)
  {
    if other.stage == Commit && other.op.StatusOp? {
      assert other.op.user in other.locked;
      LockedByOne(tx, other, other.op.user);
      MergedRow(other.work, tx, other.op.user);
    }
  }

  /** Another transaction's commit leaves an open one as it should be. */
  lemma OtherStays(tx: Transaction, other: Transaction, db: Db, now: int)
    requires Committable(tx, db) && !Exclusive(other) && SharingOk(other, db) && Apart(tx, other)
    requires Good(db, now, Some({})) && Good(tx.work, now, Some({}))
    requires TransactionOk(other, db, now) && WellFormed(other.work)
    ensures TransactionOk(Merged(other, tx), tx.work, now) && SharingOk(Merged(other, tx), tx.work)
  {
    MergeAgrees(tx, other, db);
    StageStays(tx, other, db, now);
    if other.op.StatusOp? {
      ReadersSeeTheCommit(Merged(other, tx), tx.work);
    }
  }

  lemma ReadersSeeTheCommit(reader: Transaction, db: Db)
    requires Agrees(reader, db) && reader.op.StatusOp?
    ensures reader.work.messages == db.messages && reader.work.receipts == db.receipts
  {
    forall k ensures SameReceipt(db, reader.work, k) {
      assert !Writes(reader, k);
    }
    SameReceiptsEqual(db, reader.work);
    forall id ensures id in reader.work.messages <==> id in db.messages
              ensures id in db.messages ==> reader.work.messages[id] == db.messages[id] {
    }
  }

  lemma OpenIsWellFormed(tx: Transaction, db: Db, now: int)
    requires TransactionOk(tx, db, now)
    ensures WellFormed(tx.work)
  {
  }
}
