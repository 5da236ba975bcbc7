/**
What a committed transaction did to the committed messages and receipts, in
every interleaving, told by the tables alone.
*/
module MessageEffects {
  import opened Options
  import opened MessageStatus
  import opened MessageProtocol
  import opened MessageSharing
  import opened MessageTheorems

  predicate SameTables(a: Db, b: Db) {
    a.messages == b.messages && a.receipts == b.receipts
  }

  ghost predicate OthersSame(before: Db, after: Db, k: (MessageId, UserId)) {
    after.messages == before.messages && forall other :: other != k ==> SameReceipt(before, after, other)
  }

  /** The message was not deleted by its reader; it is read now, or was before. */
  predicate BecameRead(before: Db, after: Db, k: (MessageId, UserId), at: int) {
    && k in after.receipts
    && after.receipts[k].deletedAt.None?
    && (k in before.receipts ==> before.receipts[k].deletedAt.None?)
    && after.receipts[k].readAt == if k in before.receipts && before.receipts[k].readAt.Some?
                                   then before.receipts[k].readAt else Some(at)
  }

  /** The message is deleted now, or was before; whether it was read stays as it was. */
  predicate BecameDeleted(before: Db, after: Db, k: (MessageId, UserId), at: int) {
    && k in after.receipts
    && after.receipts[k].readAt == (if k in before.receipts then before.receipts[k].readAt else None)
    && after.receipts[k].deletedAt == if k in before.receipts && before.receipts[k].deletedAt.Some?
                                      then before.receipts[k].deletedAt else Some(at)
  }

  /** Exactly the listed messages of the user become read. */
  ghost predicate AllRead(before: Db, after: Db, u: UserId, ids: set<MessageId>, at: int) {
    && after.messages == before.messages
    && (forall id :: id in ids ==>
          && id in before.messages
          && ((id, u) in before.receipts ==> before.receipts[(id, u)] == Receipt(None, None))
          && (id, u) in after.receipts && after.receipts[(id, u)] == Receipt(Some(at), None))
    && forall k: (MessageId, UserId) :: !(k.1 == u && k.0 in ids) ==> SameReceipt(before, after, k)
  }

  /** One new message, and no receipt of it yet. */
  ghost predicate Published(before: Db, after: Db, id: MessageId, recipients: Option<set<UserId>>, expiry: Option<int>,
                            at: int)
  {
    && id !in before.messages
    && (expiry.Some? ==> at < expiry.value)
    && after.messages
       == before.messages[id := Message(if recipients.None? then Everyone else Targeted, at, expiry)]
    && forall k: (MessageId, UserId) :: k.0 != id ==> SameReceipt(before, after, k)
  }

  ghost predicate NoReceipts(db: Db, id: MessageId) {
    forall u :: (id, u) !in db.receipts
  }

  /** An empty receipt for each recipient and for nobody else. */
  ghost predicate EmptyReceipts(db: Db, id: MessageId, recipients: Option<set<UserId>>) {
    && (recipients.Some? ==> recipients.value <= db.users.Keys)
    && (forall u :: (id, u) in db.receipts <==> recipients.Some? && u in recipients.value)
    && forall u :: (id, u) in db.receipts ==> db.receipts[(id, u)] == Receipt(None, None)
  }

  /** The message and its receipts are gone, and nothing else. */
  ghost predicate Retracted(before: Db, after: Db, id: MessageId) {
    && id in before.messages && after.messages == before.messages - {id}
    && NoReceipts(after, id)
    && forall k: (MessageId, UserId) :: k.0 != id ==> SameReceipt(before, after, k)
  }

  /** What a transaction did, by its operation. */
  ghost predicate Effect(tx: Transaction, before: Db, after: Db) {
    match tx.op
    case StatusOp(_, _) => SameTables(before, after)
    case ExpireOp(_) => SameTables(before, after)
    case ReadOp(u, id) =>
      && InInbox(before, u, id, tx.exactAt)
      && OthersSame(before, after, (id, u)) && BecameRead(before, after, (id, u), tx.exactAt)
    case DeleteOp(u, id) =>
      && InInbox(before, u, id, tx.exactAt)
      && OthersSame(before, after, (id, u)) && BecameDeleted(before, after, (id, u), tx.exactAt)
    case ReadAllOp(u) => AllRead(before, after, u, tx.truth.Keys, tx.exactAt)
    case SendOp(recipients, expiry) =>
      && Published(before, after, tx.message, recipients, expiry, tx.exactAt)
      && EmptyReceipts(after, tx.message, recipients)
    case RetractOp(id) => Retracted(before, after, id)
  }

  /** The users of an operation other than a send have rows, and before the commit none of the rows is overdue. */
  ghost predicate RowsRenewed(tx: Transaction) {
    !tx.op.SendOp? ==>
      && (tx.stage != Initialize ==> Own(tx) <= tx.work.rows.Keys)
      && (tx.stage == Commit ==>
            forall u :: u in tx.work.rows && Chosen(UsersOf(tx.op), u) ==> !Due(tx.work.rows[u], tx.exactAt))
  }

  /** How much of its effect an open transaction sees, by stage. */
  ghost predicate EffectSoFar(tx: Transaction, db: Db, now: int) {
    && tx.exactAt <= now
    && RowsRenewed(tx)
    && match tx.stage
       case Initialize => SameTables(db, tx.work)
       case Repair => SameTables(db, tx.work) && (tx.op.StatusOp? || tx.op.ExpireOp? || tx.op.SendOp?)
       case Insert => SameTables(db, tx.work)
       case Mutate => SameTables(db, tx.work)
       case Deliver =>
         && tx.op.SendOp? && NoReceipts(tx.work, tx.message)
         && Published(db, tx.work, tx.message, tx.op.recipients, tx.op.expiry, tx.exactAt)
       case Count => tx.op.SendOp? && Effect(tx, db, tx.work)
       case Recompute => Effect(tx, db, tx.work)
       case Commit => Effect(tx, db, tx.work)
  }

  ghost predicate AllSoFar(s: State) {
    forall pid :: pid in s.open ==> EffectSoFar(s.open[pid], s.db, s.now)
  }

  // ----- Statements -----

  lemma MutateHasEffect(tx: Transaction, db: Db, now: int, sequence: MessageId)
    requires tx.stage == Mutate && SameTables(db, tx.work) && WellFormed(tx.work) && tx.work.users == db.users
    ensures var out := RunStatement(tx, db, now, sequence);
            out.Continue? ==> out.tx.stage == Recompute && out.tx.exactAt == now && Effect(out.tx, db, out.tx.work)
  {
    var out := RunStatement(tx, db, now, sequence);
    match tx.op {
      case ReadOp(u, id) =>
      case DeleteOp(u, id) =>
      case ReadAllOp(u) =>
        ReadAllEffect(tx.work, db, u, now);
      case RetractOp(id) =>
      case _ =>
    }
  }

  lemma ReadAllEffect(work: Db, db: Db, u: UserId, now: int)
    requires SameTables(db, work) && work.users == db.users
    ensures AllRead(db, MarkAllRead(work, u, now), u, Truth(db, u, now).Keys, now)
  {
    var ids := Recount(work, u, now);
    assert Recount(db, u, now) == ids;
    var after := MarkAllRead(work, u, now);
    forall k: (MessageId, UserId) | !(k.1 == u && k.0 in ids) ensures SameReceipt(db, after, k) {
      assert k == (k.0, k.1);
    }
  }

  lemma RefreshHasNoEffect(tx: Transaction, db: Db, now: int, sequence: MessageId)
    requires tx.stage == Repair || tx.stage == Recompute || tx.stage == Initialize
    ensures var out := RunStatement(tx, db, now, sequence);
            && out.Continue? && SameTables(tx.work, out.tx.work) && out.tx.work.users == tx.work.users
            && out.tx.op == tx.op && out.tx.message == tx.message
            && (tx.stage != Repair ==> out.tx.exactAt == tx.exactAt && out.tx.truth == tx.truth)
            && (tx.stage == Repair ==> out.tx.exactAt == now)
  {
    hide RepairedRow, Truth, Missed;
  }

  lemma InsertHasEffect(tx: Transaction, db: Db, now: int, sequence: MessageId)
    requires tx.stage == Insert && SameTables(db, tx.work) && WellFormed(tx.work)
    ensures var out := RunStatement(tx, db, now, sequence);
            out.Continue? ==>
              && out.tx.op == tx.op && tx.op.SendOp? && out.tx.exactAt == now && out.tx.message == sequence
              && out.tx.stage == (if tx.op.recipients.None? then Count else Deliver)
              && NoReceipts(out.tx.work, sequence)
              && Published(db, out.tx.work, sequence, tx.op.recipients, tx.op.expiry, now)
  {
    hide InsertMessage;
    var out := RunStatement(tx, db, now, sequence);
    if out.Continue? {
      var SendOp(recipients, expiry) := tx.op;
      InsertedMessage(tx.work, sequence,
                      Message(if recipients.None? then Everyone else Targeted, now, expiry));
    }
  }

  lemma InsertedMessage(db: Db, id: MessageId, m: Message)
    requires WellFormed(db) && id !in db.messages
    ensures var after := InsertMessage(db, id, m);
            after.messages == db.messages[id := m] && after.receipts == db.receipts && NoReceipts(after, id)
  {
    forall u ensures (id, u) !in db.receipts {
      assert (id, u) in db.receipts ==> (id, u).0 in db.messages;
    }
  }

  lemma DeliverHasEffect(tx: Transaction, db: Db, now: int, sequence: MessageId)
    requires tx.stage == Deliver && EffectSoFar(tx, db, now)
    ensures var out := RunStatement(tx, db, now, sequence);
            out.Continue? ==> out.tx.stage == Count && out.tx.exactAt == tx.exactAt && Effect(out.tx, db, out.tx.work)
  {
    hide InsertRecipients;
    var out := RunStatement(tx, db, now, sequence);
    if out.Continue? {
      var ids := tx.op.recipients.value;
      SameSize(ids * tx.work.users.Keys, ids);
      DeliveryKeepsRest(tx.work, tx.message, ids);
      forall k: (MessageId, UserId) | k.0 != tx.message ensures SameReceipt(db, out.tx.work, k) {
        InsertedRecipients(tx.work, tx.message, ids, k);
        assert SameReceipt(db, tx.work, k);
      }
      DeliveredToAll(tx.work, tx.message, ids);
    }
  }

  lemma DeliveredToAll(db: Db, id: MessageId, ids: set<UserId>)
    requires NoReceipts(db, id) && ids <= db.users.Keys
    ensures EmptyReceipts(InsertRecipients(db, id, ids), id, Some(ids))
  {
    forall u ensures (id, u) in InsertRecipients(db, id, ids).receipts <==> u in ids {
      InsertedRecipients(db, id, ids, (id, u));
    }
  }

  lemma SameTablesSameEffect(tx: Transaction, next: Transaction, db: Db)
    requires Effect(tx, db, tx.work) && SameTables(tx.work, next.work) && next.work.users == tx.work.users
    requires next.op == tx.op && next.message == tx.message && next.exactAt == tx.exactAt && next.truth == tx.truth
    ensures Effect(next, db, next.work)
  {
    forall k | SameReceipt(db, tx.work, k) ensures SameReceipt(db, next.work, k) {
    }
  }

  lemma CountHasNoEffect(tx: Transaction, db: Db, now: int, sequence: MessageId)
    requires tx.stage == Count
    ensures var out := RunStatement(tx, db, now, sequence);
            out.Continue? ==> out.tx == tx.(work := out.tx.work, stage := Commit) && SameTables(tx.work, out.tx.work) &&
                              out.tx.work.users == tx.work.users
  {
    hide CountedRow;
  }

  lemma InitializedRows(db: Db, users: set<UserId>)
    requires users <= db.users.Keys
    ensures users <= InitRows(db, Some(users)).rows.Keys
  {
  }

  lemma RefreshedRows(db: Db, users: Option<set<UserId>>, dueOnly: bool, now: int, at: int)
    requires at <= now
    ensures var rows := Refresh(db, users, dueOnly, now).rows;
            rows.Keys == db.rows.Keys && forall u :: u in rows && Chosen(users, u) ==> !Due(rows[u], at)
  {
    hide RefreshedRow;
    forall u | u in db.rows && Chosen(users, u) ensures !Due(RepairedRow(db, users, dueOnly, now, u), at) {
      RefreshedShape(db, u, now);
    }
  }

  lemma MutateKeepsRows(tx: Transaction, db: Db, now: int, sequence: MessageId)
    requires tx.stage == Mutate || tx.stage == Insert || tx.stage == Deliver || tx.stage == Count
    ensures var out := RunStatement(tx, db, now, sequence);
            out.Continue? ==> out.tx.op == tx.op && out.tx.stage != Initialize &&
                              (tx.stage == Mutate ==> out.tx.stage == Recompute && out.tx.work.rows == tx.work.rows) &&
                              (tx.stage != Mutate ==> tx.op.SendOp?)
  {
    hide CountedRow, CanRead, InInbox, Recount, ReceiptOf;
  }

  lemma StatementRenewsRows(tx: Transaction, db: Db, now: int, sequence: MessageId)
    requires tx.stage != Commit && EffectSoFar(tx, db, now)
    requires !tx.op.SendOp? ==> Own(tx) <= tx.work.users.Keys
    ensures var out := RunStatement(tx, db, now, sequence); out.Continue? ==> RowsRenewed(out.tx)
  {
    hide Effect, SameTables, Published, NoReceipts, Refresh, InitRows;
    match tx.stage {
      case Initialize => if !tx.op.SendOp? { InitializedRows(tx.work, Own(tx)); }
      case Repair => RefreshedRows(tx.work, UsersOf(tx.op), true, now, now);
      case Recompute => RefreshedRows(tx.work, UsersOf(tx.op), false, now, tx.exactAt);
      case _ => MutateKeepsRows(tx, db, now, sequence); hide RunStatement;
    }
  }

  /** Each statement takes a transaction one stage further towards its effect. */
  lemma StatementHasEffect(tx: Transaction, db: Db, now: int, sequence: MessageId)
    requires tx.stage != Commit && TransactionOk(tx, db, now) && EffectSoFar(tx, db, now)
    requires !tx.op.SendOp? ==> Own(tx) <= tx.work.users.Keys
    ensures var out := RunStatement(tx, db, now, sequence); out.Continue? ==> EffectSoFar(out.tx, db, now)
  {
    hide TransactionOk, Good, Effect, SameTables, Published, NoReceipts, Refresh, InitRows, AddStatus;
    OpenIsWellFormed(tx, db, now);
    StageFits(tx, db, now);
    StatementRenewsRows(tx, db, now, sequence);
    hide RowsRenewed;
    match tx.stage {
      case Initialize => RefreshStage(tx, db, now, sequence);
      case Repair => RefreshStage(tx, db, now, sequence);
      case Insert => InsertHasEffect(tx, db, now, sequence); InsertStage(tx, db, now, sequence);
      case Deliver => DeliverHasEffect(tx, db, now, sequence);
      case Count =>
        CountHasNoEffect(tx, db, now, sequence);
        if RunStatement(tx, db, now, sequence).Continue? {
          SameTablesSameEffect(tx, RunStatement(tx, db, now, sequence).tx, db);
        }
      case Mutate => MutateHasEffect(tx, db, now, sequence);
      case Recompute =>
        RefreshHasNoEffect(tx, db, now, sequence);
        SameTablesSameEffect(tx, RunStatement(tx, db, now, sequence).tx, db);
    }
  }

  lemma StageFits(tx: Transaction, db: Db, now: int)
    requires TransactionOk(tx, db, now)
    ensures tx.work.users == db.users
    ensures tx.stage == Mutate || tx.stage == Recompute ==> !tx.op.SendOp? && !tx.op.StatusOp? && !tx.op.ExpireOp?
  {
  }

  /** A repair before the commit belongs to an operation without an effect. */
  lemma RefreshStage(tx: Transaction, db: Db, now: int, sequence: MessageId)
    requires tx.stage == Initialize || tx.stage == Repair
    requires EffectSoFar(tx, db, now) && TransactionOk(tx, db, now)
    requires RowsRenewed(RunStatement(tx, db, now, sequence).tx)
    ensures EffectSoFar(RunStatement(tx, db, now, sequence).tx, db, now)
  {
    hide TransactionOk, RowsRenewed, Refresh, InitRows, Truth, Missed;
    RefreshHasNoEffect(tx, db, now, sequence);
  }

  lemma InsertStage(tx: Transaction, db: Db, now: int, sequence: MessageId)
    requires tx.stage == Insert && EffectSoFar(tx, db, now)
    requires var out := RunStatement(tx, db, now, sequence);
             out.Continue? ==>
               && RowsRenewed(out.tx)
               && out.tx.op == tx.op && tx.op.SendOp? && out.tx.exactAt == now
               && out.tx.stage == (if tx.op.recipients.None? then Count else Deliver)
               && NoReceipts(out.tx.work, out.tx.message)
               && Published(db, out.tx.work, out.tx.message, tx.op.recipients, tx.op.expiry, now)
    ensures var out := RunStatement(tx, db, now, sequence); out.Continue? ==> EffectSoFar(out.tx, db, now)
  {
    hide InsertMessage;
  }

  // ----- Commits of others -----

  /** One transaction about to commit while another one that shares the gate is open. */
  ghost predicate Beside(tx: Transaction, other: Transaction, db: Db) {
    && Committable(tx, db) && !Exclusive(other) && Agrees(other, db) && LocksOk(other) && Apart(tx, other)
    && WellFormed(db) && WellFormed(tx.work) && WellFormed(other.work)
  }

  /** The messages both sides see after the commit: what they saw before, and the message of the commit. */
  lemma MessagesBeside(tx: Transaction, other: Transaction, db: Db)
    requires Beside(tx, other, db)
    ensures var merged := Merge(other.work, tx);
            && merged.users == other.work.users == db.users == tx.work.users
            && (forall id :: id in db.messages ==> id in tx.work.messages && tx.work.messages[id] == db.messages[id])
            && (forall id :: id in tx.work.messages ==>
                  id in merged.messages && merged.messages[id] == tx.work.messages[id])
            && (forall id :: id in other.work.messages ==>
                  id in merged.messages && merged.messages[id] == other.work.messages[id])
            && (forall id :: id in merged.messages ==> id in other.work.messages || id in tx.work.messages)
            && (HasMessage(other) ==> other.message !in tx.work.messages)
  {
    hide Merge, WellFormed;
    OthersAreCompatible(tx, other, db);
    MergedMessages(other.work, db, tx);
  }

  predicate Touches(tx: Transaction, k: (MessageId, UserId)) {
    k in tx.work.receipts && Writes(tx, k)
  }

  /** A receipt that the commit does not touch stays on both sides; one that it writes is the same on both. */
  lemma ReceiptBeside(tx: Transaction, other: Transaction, db: Db, k: (MessageId, UserId))
    requires Beside(tx, other, db)
    ensures !Touches(tx, k) ==> SameReceipt(db, tx.work, k) && SameReceipt(other.work, Merge(other.work, tx), k)
    ensures Touches(tx, k) ==> SameReceipt(tx.work, Merge(other.work, tx), k)
    ensures SameReceipt(db, other.work, k) ==> SameReceipt(tx.work, Merge(other.work, tx), k)
  {
    hide Merge, WellFormed, RowsAgree, MissedAgrees, MessagesAgree;
    MergedReceipt(other.work, tx, k);
    assert !Writes(tx, k) ==> SameReceipt(db, tx.work, k);
    assert k in db.receipts ==> k in tx.work.receipts;
  }

  /** The receipts of the other's locked users, and those of its own message, are not touched. */
  lemma OwnReceiptUntouched(tx: Transaction, other: Transaction, db: Db, k: (MessageId, UserId))
    requires Beside(tx, other, db)
    requires (k.1 in other.locked && k.0 in db.messages) || (HasMessage(other) && k.0 == other.message)
    ensures !Touches(tx, k)
  {
    var (id, u) := k;
    if HasMessage(other) && id == other.message {
      MessagesBeside(tx, other, db);
      UnknownMessageHasNoReceipt(tx, id, u);
    } else {
      LockedByOne(tx, other, u);
    }
  }

  lemma SameTablesBeside(tx: Transaction, other: Transaction, db: Db)
    requires Beside(tx, other, db) && SameTables(db, other.work)
    ensures SameTables(tx.work, Merge(other.work, tx))
  {
    hide Beside, Merge;
    MessagesBeside(tx, other, db);
    var merged := Merge(other.work, tx);
    forall k ensures SameReceipt(tx.work, merged, k) {
      ReceiptBeside(tx, other, db, k);
    }
    SameReceiptsEqual(tx.work, merged);
    MessagesStaySame(tx, other, db);
  }

  lemma MessagesStaySame(tx: Transaction, other: Transaction, db: Db)
    requires Beside(tx, other, db) && other.work.messages == db.messages
    ensures Merge(other.work, tx).messages == tx.work.messages
  {
    hide Beside, Merge;
    MessagesBeside(tx, other, db);
    SameMessages(Merge(other.work, tx).messages, tx.work.messages);
  }

  lemma SameMessages(a: map<MessageId, Message>, b: map<MessageId, Message>)
    requires forall id :: id in a ==> id in b && a[id] == b[id]
    requires forall id :: id in b ==> id in a
    ensures a == b
  {
    forall id ensures id in a <==> id in b ensures id in a ==> a[id] == b[id] {
    }
  }

  lemma InInboxBeside(tx: Transaction, other: Transaction, db: Db, u: UserId, id: MessageId, t: int)
    requires Beside(tx, other, db) && u in other.locked && InInbox(db, u, id, t)
    ensures InInbox(tx.work, u, id, t)
  {
    hide Beside, Merge;
    MessagesBeside(tx, other, db);
    OwnReceiptUntouched(tx, other, db, (id, u));
    ReceiptBeside(tx, other, db, (id, u));
  }

  lemma OthersSameBeside(tx: Transaction, other: Transaction, db: Db, k: (MessageId, UserId))
    requires Beside(tx, other, db) && OthersSame(db, other.work, k)
    ensures OthersSame(tx.work, Merge(other.work, tx), k)
  {
    hide Beside, Merge;
    MessagesStaySame(tx, other, db);
    forall at | at != k ensures SameReceipt(tx.work, Merge(other.work, tx), at) {
      ReceiptBeside(tx, other, db, at);
    }
  }

  lemma OneReceiptBeside(tx: Transaction, other: Transaction, db: Db, k: (MessageId, UserId))
    requires Beside(tx, other, db) && k.1 in other.locked && k.0 in db.messages
    ensures SameReceipt(db, tx.work, k) && SameReceipt(other.work, Merge(other.work, tx), k)
  {
    hide Beside, Merge;
    OwnReceiptUntouched(tx, other, db, k);
    ReceiptBeside(tx, other, db, k);
  }

  lemma AllReadBeside(tx: Transaction, other: Transaction, db: Db, u: UserId, ids: set<MessageId>, at: int)
    requires Beside(tx, other, db) && u in other.locked && AllRead(db, other.work, u, ids, at)
    ensures AllRead(tx.work, Merge(other.work, tx), u, ids, at)
  {
    hide Beside, Merge;
    MessagesBeside(tx, other, db);
    MessagesStaySame(tx, other, db);
    var merged := Merge(other.work, tx);
    forall id | id in ids
      ensures SameReceipt(db, tx.work, (id, u)) && SameReceipt(other.work, merged, (id, u)) {
      OneReceiptBeside(tx, other, db, (id, u));
    }
    forall k: (MessageId, UserId) | !(k.1 == u && k.0 in ids) ensures SameReceipt(tx.work, merged, k) {
      ReceiptBeside(tx, other, db, k);
    }
  }

  lemma PublishedBeside(tx: Transaction, other: Transaction, db: Db, at: int)
    requires Beside(tx, other, db) && HasMessage(other) && other.op.SendOp?
    requires Published(db, other.work, other.message, other.op.recipients, other.op.expiry, at)
    ensures Published(tx.work, Merge(other.work, tx), other.message, other.op.recipients, other.op.expiry, at)
  {
    hide Beside, Merge;
    MessagesBeside(tx, other, db);
    var merged, id := Merge(other.work, tx), other.message;
    SameMessages(merged.messages, tx.work.messages[id := other.work.messages[id]]);
    forall k: (MessageId, UserId) | k.0 != id ensures SameReceipt(tx.work, merged, k) {
      assert SameReceipt(db, other.work, k);
      ReceiptBeside(tx, other, db, k);
    }
  }

  lemma SentReceiptsBeside(tx: Transaction, other: Transaction, db: Db, recipients: Option<set<UserId>>)
    requires Beside(tx, other, db) && HasMessage(other)
    ensures NoReceipts(other.work, other.message) ==> NoReceipts(Merge(other.work, tx), other.message)
    ensures EmptyReceipts(other.work, other.message, recipients) ==>
            EmptyReceipts(Merge(other.work, tx), other.message, recipients)
  {
    hide Beside, Merge;
    MessagesBeside(tx, other, db);
    forall u ensures SameReceipt(other.work, Merge(other.work, tx), (other.message, u)) {
      OwnReceiptUntouched(tx, other, db, (other.message, u));
      ReceiptBeside(tx, other, db, (other.message, u));
    }
  }

  lemma EffectBeside(tx: Transaction, other: Transaction, db: Db)
    requires Beside(tx, other, db) && Effect(other, db, other.work)
    requires if other.op.SendOp? then HasMessage(other) else Own(other) <= other.locked
    ensures Effect(Merged(other, tx), tx.work, Merge(other.work, tx))
  {
    hide Beside, Merge, SameTables, OthersSame, AllRead, Published, EmptyReceipts, InInbox;
    match other.op {
      case StatusOp(_, _) => SameTablesBeside(tx, other, db);
      case ExpireOp(_) => SameTablesBeside(tx, other, db);
      case ReadOp(u, id) =>
        InInboxBeside(tx, other, db, u, id, other.exactAt);
        OthersSameBeside(tx, other, db, (id, u));
        VisibleIsKnown(db, u, id, other.exactAt);
        OneReceiptBeside(tx, other, db, (id, u));
      case DeleteOp(u, id) =>
        InInboxBeside(tx, other, db, u, id, other.exactAt);
        OthersSameBeside(tx, other, db, (id, u));
        VisibleIsKnown(db, u, id, other.exactAt);
        OneReceiptBeside(tx, other, db, (id, u));
      case ReadAllOp(u) => AllReadBeside(tx, other, db, u, other.truth.Keys, other.exactAt);
      case SendOp(recipients, _) =>
        PublishedBeside(tx, other, db, other.exactAt);
        SentReceiptsBeside(tx, other, db, recipients);
      case RetractOp(_) => NotExclusive(tx, other, db);
    }
  }

  lemma VisibleIsKnown(db: Db, u: UserId, id: MessageId, t: int)
    requires InInbox(db, u, id, t)
    ensures id in db.messages
  {
  }

  lemma NotExclusive(tx: Transaction, other: Transaction, db: Db)
    requires Beside(tx, other, db)
    ensures !Exclusive(other)
  {
  }

  /** Another transaction's commit leaves an open one on its way to its effect. */
  lemma EffectSurvives(tx: Transaction, other: Transaction, db: Db, now: int)
    requires Beside(tx, other, db) && EffectSoFar(other, db, now)
    ensures EffectSoFar(Merged(other, tx), tx.work, now)
  {
    NotExclusive(tx, other, db);
    LockedOrSent(tx, other, db);
    RowsBeside(tx, other, db);
    hide RowsRenewed, Beside, Merge, SameTables, Effect, Published, NoReceipts;
    match other.stage {
      case Deliver =>
        PublishedBeside(tx, other, db, other.exactAt);
        SentReceiptsBeside(tx, other, db, None);
      case Count => EffectBeside(tx, other, db);
      case Recompute => EffectBeside(tx, other, db);
      case Commit => EffectBeside(tx, other, db);
      case _ => SameTablesBeside(tx, other, db);
    }
  }

  lemma RowsBeside(tx: Transaction, other: Transaction, db: Db)
    requires Beside(tx, other, db) && RowsRenewed(other)
    ensures RowsRenewed(Merged(other, tx))
  {
    LockedOrSent(tx, other, db);
    NotExclusive(tx, other, db);
    hide Merge, Beside;
    if !other.op.SendOp? && other.stage != Initialize {
      forall u | u in Own(other) ensures SameRow(other.work, Merge(other.work, tx), u) {
        LockedRowBeside(tx, other, db, u);
      }
      SameRowsRenewed(other, Merged(other, tx));
    }
  }

  lemma SameRowsRenewed(tx: Transaction, next: Transaction)
    requires RowsRenewed(tx) && !Exclusive(tx) && tx.stage != Initialize
    requires next.op == tx.op && next.stage == tx.stage && next.exactAt == tx.exactAt
    requires forall u :: u in Own(tx) ==> SameRow(tx.work, next.work, u)
    ensures RowsRenewed(next)
  {
    hide Due;
    forall u | u in Own(tx) && u in tx.work.rows ensures u in next.work.rows && next.work.rows[u] == tx.work.rows[u] {
      assert SameRow(tx.work, next.work, u);
    }
    forall u | u in next.work.rows && Chosen(UsersOf(tx.op), u) ensures u in Own(tx) && u in tx.work.rows {
      assert SameRow(tx.work, next.work, u);
    }
  }

  lemma LockedRowBeside(tx: Transaction, other: Transaction, db: Db, u: UserId)
    requires Beside(tx, other, db) && u in other.locked
    ensures SameRow(other.work, Merge(other.work, tx), u)
  {
    hide Merge, WellFormed, Agrees, LocksOk;
    LockedByOne(tx, other, u);
    MergedRow(other.work, tx, u);
  }

  lemma LockedOrSent(tx: Transaction, other: Transaction, db: Db)
    requires Beside(tx, other, db)
    ensures !other.op.SendOp? && other.stage != Initialize ==> Own(other) <= other.locked
  {
  }

  // ----- Every run -----

  lemma JoinedEffect(tx: Transaction, next: Transaction, db: Db, u: UserId, createdAt: int)
    requires Effect(tx, db, tx.work) && u !in db.users && tx.work.users == db.users
    requires next == Joined(tx, u, createdAt)
    ensures Effect(next, AddUser(db, u, createdAt), next.work)
  {
    var after := AddUser(db, u, createdAt);
    forall k | SameReceipt(db, tx.work, k) ensures SameReceipt(after, next.work, k) {
    }
  }

  lemma JoinedHasEffect(tx: Transaction, db: Db, now: int, u: UserId, createdAt: int)
    requires EffectSoFar(tx, db, now) && u !in db.users && tx.work.users == db.users
    ensures EffectSoFar(Joined(tx, u, createdAt), AddUser(db, u, createdAt), now)
  {
    hide Effect;
    var next, after := Joined(tx, u, createdAt), AddUser(db, u, createdAt);
    assert RowsRenewed(next);
    if tx.stage == Count || tx.stage == Recompute || tx.stage == Commit {
      JoinedEffect(tx, next, db, u, createdAt);
    } else {
      forall k | SameReceipt(db, tx.work, k) ensures SameReceipt(after, next.work, k) {
      }
    }
  }

  lemma BesideHere(s: State, pid: Pid, p: Pid)
    requires Inv(s) && pid in s.open && s.open[pid].stage == Commit && p in s.open && p != pid
    ensures Beside(s.open[pid], s.open[p], s.db)
  {
    var tx, other := s.open[pid], s.open[p];
    assert Apart(tx, other);
    assert OneOk(tx, s.db, s.now, s.drawn) && OneOk(other, s.db, s.now, s.drawn);
    hide Good, StageOk, Agrees, LocksOk, WellFormed;
    OpenIsWellFormed(tx, s.db, s.now);
    OpenIsWellFormed(other, s.db, s.now);
    GoodIsWellFormed(s.db, s.now, Some({}));
  }

  lemma CommitPublishesWork(s: State, pid: Pid)
    requires Inv(s) && pid in s.open && s.open[pid].stage == Commit
    ensures Merge(s.db, s.open[pid]) == s.open[pid].work
  {
    assert OneOk(s.open[pid], s.db, s.now, s.drawn);
    hide Good, StageOk, SharingOk, WellFormed, Merge;
    OpenIsWellFormed(s.open[pid], s.db, s.now);
    CommitIsWork(s.open[pid], s.db);
  }

  lemma CommittedOne(s: State, pid: Pid, p: Pid)
    requires pid in s.open && p in Committed(s, pid).open
    ensures p in s.open && p != pid && Committed(s, pid).now == s.now
    ensures || (Committed(s, pid).db == s.db && Committed(s, pid).open[p] == s.open[p])
            || (Committed(s, pid).db == Merge(s.db, s.open[pid]) &&
                Committed(s, pid).open[p] == Merged(s.open[p], s.open[pid]))
  {
    hide Merge;
  }

  lemma CommitKeepsEffects(s: State, pid: Pid)
    requires Inv(s) && AllSoFar(s) && pid in s.open && s.open[pid].stage == Commit
    ensures AllSoFar(Committed(s, pid))
  {
    hide EffectSoFar, Inv, Beside, Committed, Merged;
    CommitPublishesWork(s, pid);
    forall p | p in Committed(s, pid).open
      ensures EffectSoFar(Committed(s, pid).open[p], Committed(s, pid).db, Committed(s, pid).now)
    {
      CommittedOne(s, pid, p);
      BesideHere(s, pid, p);
      EffectSurvives(s.open[pid], s.open[p], s.db, s.now);
    }
  }

  lemma LocksHaveNoEffect(tx: Transaction, db: Db, now: int, locked: set<UserId>)
    requires EffectSoFar(tx, db, now)
    ensures EffectSoFar(tx.(locked := locked), db, now)
  {
    hide SameTables, OthersSame, AllRead, Published, NoReceipts, EmptyReceipts, Retracted, InInbox;
  }

  lemma OwnExist(tx: Transaction, db: Db)
    requires SharingOk(tx, db)
    ensures !tx.op.SendOp? ==> Own(tx) <= tx.work.users.Keys
  {
  }

  lemma ExecutedKeepsEffects(s: State, pid: Pid, sequence: MessageId)
    requires Inv(s) && AllSoFar(s) && pid in s.open && s.open[pid].stage != Commit
    ensures AllSoFar(Executed(s, pid, sequence))
  {
    var tx := s.open[pid];
    assert OneOk(tx, s.db, s.now, s.drawn);
    OwnExist(tx, s.db);
    StatementHasEffect(tx, s.db, s.now, sequence);
    hide EffectSoFar, RunStatement, TransactionOk, SharingOk, Touched, Waits;
    var out := RunStatement(tx, s.db, s.now, sequence);
    if out.Continue? {
      LocksHaveNoEffect(out.tx, s.db, s.now, tx.locked + Touched(tx));
    }
  }

  lemma RegisterKeepsEffects(s: State, u: UserId, createdAt: int)
    requires Inv(s) && AllSoFar(s)
    ensures AllSoFar(Apply(s, Register(u, createdAt)))
  {
    hide EffectSoFar, Joined, StageOk;
    forall pid | pid in s.open && u !in s.db.users
      ensures EffectSoFar(Joined(s.open[pid], u, createdAt), AddUser(s.db, u, createdAt), s.now)
    {
      assert OneOk(s.open[pid], s.db, s.now, s.drawn);
      JoinedHasEffect(s.open[pid], s.db, s.now, u, createdAt);
    }
  }

  lemma LaterHasEffect(tx: Transaction, db: Db, now: int, later: int)
    requires EffectSoFar(tx, db, now) && now <= later
    ensures EffectSoFar(tx, db, later)
  {
    hide Effect, SameTables, Published, NoReceipts, RowsRenewed;
  }

  lemma StepKeepsEffects(s: State, step: Step)
    requires Inv(s) && AllSoFar(s)
    ensures AllSoFar(Apply(s, step))
  {
    hide EffectSoFar, Inv, Committed, Executed;
    match step {
      case Tick(elapsed) =>
        forall pid | pid in s.open ensures EffectSoFar(s.open[pid], s.db, s.now + elapsed) {
          LaterHasEffect(s.open[pid], s.db, s.now, s.now + elapsed);
        }
      case Register(u, createdAt) => RegisterKeepsEffects(s, u, createdAt);
      case Unregister(_) =>
      case Poll(_) =>
      case Begin(pid, op) => BeginHasEffect(s, op);
      case Execute(pid, sequence) =>
        if pid in s.open {
          if s.open[pid].stage == Commit {
            CommitKeepsEffects(s, pid);
          } else {
            ExecutedKeepsEffects(s, pid, sequence);
          }
        }
      case Abort(_) =>
    }
  }

  lemma BeginHasEffect(s: State, op: Operation)
    ensures EffectSoFar(Transaction(op, Initialize, s.db, {}, 0, s.now, map[], {}), s.db, s.now)
  {
  }

  lemma {:induction false} RunKeepsEffects(s: State, schedule: seq<Step>)
    requires Inv(s) && AllSoFar(s)
    ensures AllSoFar(Run(s, schedule))
    decreases |schedule|
  {
    if schedule != [] {
      hide Inv, AllSoFar;
      RunKeeps(s, schedule[..|schedule| - 1]);
      RunKeepsEffects(s, schedule[..|schedule| - 1]);
      StepKeepsEffects(Run(s, schedule[..|schedule| - 1]), schedule[|schedule| - 1]);
    }
  }

  lemma EffectsReached(now: int, users: map<UserId, int>, schedule: seq<Step>)
    requires now >= 0
    ensures Inv(Run(Initial(now, users), schedule)) && AllSoFar(Run(Initial(now, users), schedule))
  {
    hide Inv, EffectSoFar;
    Reached(now, users, schedule);
    Reached(now, users, []);
    RunKeepsEffects(Initial(now, users), schedule);
  }

  /**
  In every interleaving, a commit does to the committed messages and receipts
  exactly what its operation says, however many other transactions have been
  committed since its first statement.
  */
  lemma CommitHasEffect(now: int, users: map<UserId, int>, schedule: seq<Step>, pid: Pid, sequence: MessageId)
    requires now >= 0
    requires var s := Run(Initial(now, users), schedule); pid in s.open && s.open[pid].stage == Commit
    ensures var s := Run(Initial(now, users), schedule);
            Effect(s.open[pid], s.db, Apply(s, Execute(pid, sequence)).db)
  {
    hide Inv, Effect, Merge;
    EffectsReached(now, users, schedule);
    var s := Run(Initial(now, users), schedule);
    CommitPublishesWork(s, pid);
    assert EffectSoFar(s.open[pid], s.db, s.now);
    StatusHasNone(s.open[pid], s.db);
  }

  lemma StatusHasNone(tx: Transaction, db: Db)
    ensures tx.op.StatusOp? ==> Effect(tx, db, db)
  {
  }

  /** No other step writes a message or a receipt, but for an account that is dropped with its receipts. */
  lemma OnlyCommitsWrite(s: State, step: Step)
    requires step.Execute? && step.pid in s.open ==> s.open[step.pid].stage != Commit
    ensures var after := Apply(s, step).db;
            if step.Unregister? && s.open == map[]
            then after.messages == s.db.messages &&
                 forall k: (MessageId, UserId) ::
                   if k.1 == step.user then k !in after.receipts else SameReceipt(s.db, after, k)
            else SameTables(s.db, after)
  {
    hide RunStatement, Touched, Waits;
  }

  /** The accounts an operation other than a send is about; a retraction is about everybody. */
  predicate Concerns(op: Operation, u: UserId) {
    match op
    case StatusOp(user, _) => u == user
    case ExpireOp(due) => u in due
    case ReadOp(user, _) => u == user
    case DeleteOp(user, _) => u == user
    case ReadAllOp(user) => u == user
    case RetractOp(_) => true
    case SendOp(_, _) => false
  }

  /** A commit leaves no row it is about overdue at the instant of the operation, and those rows exist. */
  lemma CommitRenewsRows(now: int, users: map<UserId, int>, schedule: seq<Step>, pid: Pid, sequence: MessageId,
                         u: UserId)
    requires now >= 0
    requires var s := Run(Initial(now, users), schedule);
             pid in s.open && s.open[pid].stage == Commit && Concerns(s.open[pid].op, u)
    ensures var s := Run(Initial(now, users), schedule);
            var rows := Apply(s, Execute(pid, sequence)).db.rows;
            && (!s.open[pid].op.RetractOp? ==> u in rows)
            && (u in rows ==> !Due(rows[u], s.open[pid].exactAt))
  {
    hide Inv, Effect, Merge, Due;
    EffectsReached(now, users, schedule);
    var s := Run(Initial(now, users), schedule);
    CommitPublishesWork(s, pid);
    assert EffectSoFar(s.open[pid], s.db, s.now);
  }

  /** What the steps outside the transactions do: a new account, an answer from a row that is not due, a clock. */
  lemma OtherSteps(s: State, u: UserId, createdAt: int, elapsed: nat)
    ensures u !in s.db.users && createdAt <= s.now ==>
              var after := Apply(s, Register(u, createdAt)).db;
              after.users == s.db.users[u := createdAt] && after.rows == s.db.rows && SameTables(s.db, after)
    ensures u in s.db.rows && (s.db.rows[u].deadline.Some? ==> s.db.rows[u].deadline.value > s.now) ==>
              var before, after := s.answers, Apply(s, Poll(u)).answers;
              && |after| == |before| + 1 && before <= after
              && after[|before|].user == u
              && after[|before|].count == s.db.rows[u].count && after[|before|].latest == s.db.rows[u].latest
    ensures Apply(s, Tick(elapsed)) == s.(now := s.now + elapsed)
  {
  }
}
