/**
Message transactions as an interleaved system.

A broadcast or a retraction holds the gate alone; all other transactions share it and lock the rows
of their users.  Accounts are created, the inbox is polled and the clock advances between any two
statements.  A statement sees what is committed so far and its own transaction's writes, at its own
instant.
*/
module MessageProtocol {
  import opened Options
  import opened MessageStatus

  datatype Operation =
    | StatusOp(user: UserId, startedAt: int)
    | ExpireOp(due: set<UserId>)
    | SendOp(recipients: Option<set<UserId>>, expiry: Option<int>)   // None broadcasts
    | ReadOp(user: UserId, id: MessageId)
    | DeleteOp(user: UserId, id: MessageId)
    | ReadAllOp(user: UserId)
    | RetractOp(id: MessageId)

  /** The next statement of a transaction. */
  datatype Stage = Initialize | Repair | Insert | Deliver | Count | Mutate | Recompute | Commit

  /** `work` is the committed database with the transaction's own writes; `message` is the id an Insert
      returned; `locked` holds the users whose rows it has locked.  `exactAt`, `truth` and `missed` are history: the
      instant of the last repair or write, the messages then visible and unread, and those the row had missed. */
  datatype Transaction = Transaction(
    op: Operation, stage: Stage, work: Db, locked: set<UserId>, message: MessageId,
    exactAt: int, truth: map<MessageId, int>, missed: set<MessageId>)

  /** A reply of Status, with the history that judges it: the visible unread messages at one instant of the call, and
      what the row it came from had missed by then. */
  datatype Answer = Answer(
    user: UserId, count: int, latest: Option<int>,
    startedAt: int, exactAt: int, returnedAt: int, truth: map<MessageId, int>, missed: set<MessageId>)

  datatype Pid = Pid(number: nat)

  /** `drawn` are the ids the sequence has yielded. */
  datatype State = State(
    now: int, db: Db, open: map<Pid, Transaction>, drawn: set<MessageId>, answers: seq<Answer>)

  datatype Step =
    | Tick(elapsed: nat)
    | Register(user: UserId, createdAt: int)
    | Unregister(user: UserId)
    | Poll(user: UserId)          // the fast path of Status: one read of the committed row
    | Begin(pid: Pid, op: Operation)
    | Execute(pid: Pid, sequence: MessageId)   // the next statement; `sequence` is the id the sequence would yield
    | Abort(pid: Pid)

  function Initial(now: int, users: map<UserId, int>): State {
    State(now, Db(users, map[], map[], map u | u in users :: Row(0, None, None), {}), map[], {}, [])
  }

  function UsersOf(op: Operation): Option<set<UserId>> {
    match op
    case StatusOp(u, _) => Some({u})
    case ExpireOp(due) => Some(due)
    case SendOp(recipients, _) => recipients
    case ReadOp(u, _) => Some({u})
    case DeleteOp(u, _) => Some({u})
    case ReadAllOp(u) => Some({u})
    case RetractOp(_) => None
  }

  /** The visible unread messages of a user and when they were published. */
  function Truth(db: Db, u: UserId, t: int): map<MessageId, int> {
    map id | id in Recount(db, u, t) :: db.messages[id].publishedAt
  }

  datatype Outcome = Continue(tx: Transaction) | Rollback

  function RunStatement(tx: Transaction, committed: Db, now: int, sequence: MessageId): Outcome
    requires tx.stage != Commit
  {
    var db := tx.work;
    var users := UsersOf(tx.op);
    match tx.stage
    case Initialize =>
      Continue(tx.(work := InitRows(db, users),
                   stage := if tx.op.StatusOp? || tx.op.ExpireOp? || tx.op.SendOp? then Repair else Mutate))
    case Repair =>
      var repaired := tx.(work := Refresh(db, users, true, now), exactAt := now);
      (match tx.op
       case StatusOp(u, _) =>
         Continue(repaired.(stage := Commit, truth := Truth(committed, u, now), missed := Missed(repaired.work, u)))
       case SendOp(_, _) => Continue(repaired.(stage := Insert))
       case _ => Continue(repaired.(stage := Commit)))
    case Insert =>
      (match tx.op
       case SendOp(recipients, expiry) =>
         if sequence in db.messages || (expiry.Some? && expiry.value <= now) then Rollback
         else
           var m := Message(if recipients.None? then Everyone else Targeted, now, expiry);
           Continue(tx.(work := InsertMessage(db, sequence, m), message := sequence, exactAt := now,
                        stage := if recipients.None? then Count else Deliver))
       case _ => Rollback)
    case Deliver =>
      (match tx.op
       case SendOp(Some(ids), _) =>
         if |ids * db.users.Keys| != |ids| then Rollback
         else Continue(tx.(work := InsertRecipients(db, tx.message, ids), stage := Count))
       case _ => Rollback)
    case Count =>
      if tx.op.SendOp? && tx.message in db.messages
      then Continue(tx.(work := AddStatus(db, tx.message, users, db.messages[tx.message].publishedAt, tx.op.expiry),
                        stage := Commit))
      else Rollback
    case Mutate =>
      (match tx.op
       case ReadOp(u, id) =>
         if CanRead(db, u, id, now)
         then Continue(tx.(work := MarkRead(db, u, id, now), stage := Recompute, exactAt := now)) else Rollback
       case DeleteOp(u, id) =>
         if InInbox(db, u, id, now)
         then Continue(tx.(work := MarkDeleted(db, u, id, now), stage := Recompute, exactAt := now)) else Rollback
       case ReadAllOp(u) =>
         Continue(tx.(work := MarkAllRead(db, u, now), stage := Recompute, exactAt := now,
                      truth := Truth(committed, u, now)))
       case RetractOp(id) =>
         if id in db.messages
         then Continue(tx.(work := DeleteMessage(db, id), stage := Recompute, exactAt := now)) else Rollback
       case _ => Rollback)
    case Recompute => Continue(tx.(work := Refresh(db, users, false, now), stage := Commit))
  }

  // ----- Locks -----

  /** Without chosen users the gate is held alone. */
  predicate Exclusive(tx: Transaction) {
    UsersOf(tx.op).None?
  }

  function Own(tx: Transaction): set<UserId> {
    if UsersOf(tx.op).None? then {} else UsersOf(tx.op).value
  }

  /** The rows the next statement writes: missing ones of existing accounts, or those it can see. */
  function Touched(tx: Transaction): set<UserId> {
    if tx.stage == Initialize then Own(tx) * tx.work.users.Keys
    else if tx.stage == Repair || tx.stage == Count || tx.stage == Recompute then Own(tx) * tx.work.rows.Keys
    else {}
  }

  predicate Waits(s: State, pid: Pid, users: set<UserId>) {
    exists other :: other in s.open && other != pid && s.open[other].locked * users != {}
  }

  predicate MayBegin(s: State, pid: Pid, op: Operation) {
    && pid !in s.open
    && (forall other :: other in s.open ==> !Exclusive(s.open[other]))
    && (UsersOf(op).None? ==> s.open == map[])
    && (op.StatusOp? ==> op.startedAt <= s.now)
    && (!op.SendOp? && UsersOf(op).Some? ==> UsersOf(op).value <= s.db.users.Keys)
  }

  // ----- Commit -----

  predicate HasMessage(tx: Transaction) {
    tx.op.SendOp? && (tx.stage == Deliver || tx.stage == Count || tx.stage == Commit)
  }

  predicate Writes(tx: Transaction, k: (MessageId, UserId)) {
    if tx.op.SendOp? then HasMessage(tx) && k.0 == tx.message
    else (tx.op.ReadOp? || tx.op.DeleteOp? || tx.op.ReadAllOp?) && k.1 in Own(tx)
  }

  /** What the rows miss once the writes of a transaction are applied to a database.  A row that it has locked is the
      one it computed, any other is the database's; neither counts a message that only the other side delivers. */
  function MergedMissed(db: Db, tx: Transaction): set<(MessageId, UserId)> {
    (set k | k in tx.work.missed && k.1 in tx.locked)
    + (set k | k in db.missed && k.1 !in tx.locked)
    + (set k | k in db.receipts && k.1 in tx.locked && k.1 in tx.work.rows && k.0 !in tx.work.messages)
    + (set k | k in tx.work.receipts && k.1 !in tx.locked && k.1 in db.rows && k.0 !in db.messages)
  }

  /** The writes of a transaction applied to a database; one that held the gate alone leaves its own. */
  function Merge(db: Db, tx: Transaction): Db {
    if Exclusive(tx) then tx.work
    else
      Db(db.users,
         if HasMessage(tx) && tx.message in tx.work.messages
             then db.messages[tx.message := tx.work.messages[tx.message]] else db.messages,
         map k | k in db.receipts.Keys + tx.work.receipts.Keys && (k in db.receipts || Writes(tx, k))
               :: if k in tx.work.receipts && Writes(tx, k) then tx.work.receipts[k] else db.receipts[k],
         map u | u in db.rows.Keys + tx.work.rows.Keys && (if u in tx.locked then u in tx.work.rows else u in db.rows)
               :: if u in tx.locked then tx.work.rows[u] else db.rows[u],
         MergedMissed(db, tx))
  }

  function Merged(tx: Transaction, other: Transaction): Transaction {
    tx.(work := Merge(tx.work, other))
  }

  function MergedAt(open: map<Pid, Transaction>, pid: Pid, other: Transaction): Transaction
    requires pid in open
  {
    Merged(open[pid], other)
  }

  /** Commit makes the writes visible to everybody; the slow path of Status replies with the row it has just read. */
  function Committed(s: State, pid: Pid): State
    requires pid in s.open
  {
    var tx := s.open[pid];
    var others := map other | other in s.open && other != pid :: MergedAt(s.open, other, tx);
    var s' := s.(db := Merge(s.db, tx), open := others);
    match tx.op
    case StatusOp(u, startedAt) =>
      if u in tx.work.rows then
        var row := tx.work.rows[u];
        s'.(answers := s.answers +
                       [Answer(u, row.count, row.latest, startedAt, tx.exactAt, s.now, tx.truth, tx.missed)])
      else s.(open := s.open - {pid})
    case _ => s'
  }

  function Executed(s: State, pid: Pid, sequence: MessageId): State
    requires pid in s.open && s.open[pid].stage != Commit
  {
    var tx := s.open[pid];
    if Waits(s, pid, Touched(tx)) || (tx.stage == Insert && sequence in s.drawn) then s
    else
      var drawn := if tx.stage == Insert then s.drawn + {sequence} else s.drawn;
      match RunStatement(tx, s.db, s.now, sequence)
      case Continue(next) =>
        s.(open := s.open[pid := next.(locked := tx.locked + Touched(tx))], drawn := drawn)
      case Rollback => s.(open := s.open - {pid}, drawn := drawn)
  }

  /** An open transaction sees an account that was created meanwhile. */
  function Joined(tx: Transaction, u: UserId, createdAt: int): Transaction {
    tx.(work := AddUser(tx.work, u, createdAt))
  }

  function JoinedAt(open: map<Pid, Transaction>, pid: Pid, u: UserId, createdAt: int): Transaction
    requires pid in open
  {
    Joined(open[pid], u, createdAt)
  }

  /** A step that is not enabled changes nothing. */
  function Apply(s: State, step: Step): State {
    match step
    case Tick(elapsed) => s.(now := s.now + elapsed)
    case Register(u, createdAt) =>
      if u in s.db.users || createdAt > s.now then s
      else s.(db := AddUser(s.db, u, createdAt),
              open := map pid | pid in s.open :: JoinedAt(s.open, pid, u, createdAt))
    case Unregister(u) => if s.open != map[] then s else s.(db := DropUser(s.db, u))
    case Poll(u) =>
      if u in s.db.rows && Fresh(s.db.rows[u], s.now) then
        var row := s.db.rows[u];
        s.(answers := s.answers +
                      [Answer(u, row.count, row.latest, s.now, s.now, s.now, Truth(s.db, u, s.now), Missed(s.db, u))])
      else s
    case Begin(pid, op) =>
      if !MayBegin(s, pid, op) then s
      else s.(open := s.open[pid := Transaction(op, Initialize, s.db, {}, 0, s.now, map[], {})])
    case Execute(pid, sequence) =>
      if pid !in s.open then s
      else if s.open[pid].stage == Commit then Committed(s, pid)
      else Executed(s, pid, sequence)
    case Abort(pid) => s.(open := s.open - {pid})
  }

  function Run(s: State, schedule: seq<Step>): State
    decreases |schedule|
  {
    if schedule == [] then s
    else Apply(Run(s, schedule[..|schedule| - 1]), schedule[|schedule| - 1])
  }

  // ----- The invariant -----

  /** A send between its message and its count: no row counts the message yet. */
  ghost predicate Sending(tx: Transaction, now: int) {
    && tx.op.SendOp? && tx.message in tx.work.messages
    && Good(tx.work, now, Some({}))
    && var m := tx.work.messages[tx.message];
       m.publishedAt <= now && m.expiredAt == tx.op.expiry &&
           m.scope == (if tx.op.recipients.None? then Everyone else Targeted)
  }

  ghost predicate Undelivered(tx: Transaction) {
    forall u :: (tx.message, u) !in tx.work.receipts && (tx.message, u) !in tx.work.missed
  }

  ghost predicate Delivered(tx: Transaction) {
    && tx.op.SendOp?
    && Reaches(tx.work, tx.message, tx.op.recipients)
    && (tx.op.recipients.Some? ==> tx.op.recipients.value <= tx.work.users.Keys)
    && (forall u :: (tx.message, u) in tx.work.receipts ==> tx.work.receipts[(tx.message, u)] == Receipt(None, None))
  }

  /** What the slow path of Status is about to reply was, but for what its row had missed, the truth when the row was
      repaired. */
  predicate ReplyExact(tx: Transaction, now: int) {
    tx.op.StatusOp? ==>
      && tx.op.startedAt <= tx.exactAt <= now
      && (tx.op.user in tx.work.rows ==>
            && tx.work.rows[tx.op.user].count == |tx.truth - tx.missed|
            && IsMax((tx.truth - tx.missed).Values, tx.work.rows[tx.op.user].latest))
  }

  /** What a transaction sees of the tables for its statements, by stage. */
  ghost predicate StageOk(tx: Transaction, now: int) {
    match tx.stage
    case Initialize => Good(tx.work, now, Some({}))
    case Repair => Good(tx.work, now, Some({}))
    case Insert => Good(tx.work, now, Some({})) && tx.op.SendOp?
    case Deliver => Sending(tx, now) && tx.op.recipients.Some? && Undelivered(tx)
    case Count => Sending(tx, now) && Delivered(tx)
    case Mutate => Good(tx.work, now, Some({})) && !tx.op.StatusOp? && !tx.op.SendOp? && !tx.op.ExpireOp?
    case Recompute => Good(tx.work, now, UsersOf(tx.op)) && !tx.op.StatusOp? && !tx.op.SendOp? && !tx.op.ExpireOp?
    case Commit => Good(tx.work, now, Some({})) && ReplyExact(tx, now)
  }

  ghost predicate TransactionOk(tx: Transaction, committed: Db, now: int) {
    && tx.work.users == committed.users
    && (tx.op.StatusOp? ==> tx.op.startedAt <= now && tx.work.messages == committed.messages &&
                            tx.work.receipts == committed.receipts)
    && StageOk(tx, now)
  }

  predicate SameReceipt(a: Db, b: Db, k: (MessageId, UserId)) {
    (k in a.receipts <==> k in b.receipts) && (k in a.receipts ==> a.receipts[k] == b.receipts[k])
  }

  predicate SameRow(a: Db, b: Db, u: UserId) {
    (u in a.rows <==> u in b.rows) && (u in a.rows ==> a.rows[u] == b.rows[u])
  }

  ghost predicate MessagesAgree(tx: Transaction, db: Db) {
    && (forall id :: id in db.messages ==> id in tx.work.messages && tx.work.messages[id] == db.messages[id])
    && (forall id :: id in tx.work.messages ==> id in db.messages || (HasMessage(tx) && id == tx.message))
    && (HasMessage(tx) ==> tx.message in tx.work.messages && tx.message !in db.messages)
  }

  ghost predicate ReceiptsAgree(tx: Transaction, db: Db) {
    && (forall k :: !Writes(tx, k) ==> SameReceipt(db, tx.work, k))
    && (forall k :: k in db.receipts ==> k in tx.work.receipts)
  }

  ghost predicate RowsAgree(tx: Transaction, db: Db) {
    forall u :: u !in tx.locked ==> SameRow(db, tx.work, u)
  }

  /** A row that is not locked misses, besides what it had missed, the message of the transaction itself. */
  ghost predicate MissedAgrees(tx: Transaction, db: Db) {
    forall k: (MessageId, UserId) :: k.1 !in tx.locked ==>
      (k in tx.work.missed <==> k in db.missed || (k in tx.work.receipts && k.1 in db.rows && k.0 !in db.messages))
  }

  /** A sharing transaction differs from the committed database only in what it may write. */
  ghost predicate Agrees(tx: Transaction, db: Db) {
    && tx.work.users == db.users
    && MessagesAgree(tx, db)
    && ReceiptsAgree(tx, db)
    && RowsAgree(tx, db)
    && MissedAgrees(tx, db)
    && (tx.stage == Initialize ==> tx.work == db)
  }

  /** The locks a sharing transaction holds, whom its message reaches, and that the rows it has locked count it. */
  ghost predicate LocksOk(tx: Transaction) {
    && tx.locked <= Own(tx)
    && (!tx.op.SendOp? ==> Own(tx) <= tx.work.users.Keys)
    && (!tx.op.SendOp? && tx.stage != Initialize ==> Own(tx) <= tx.locked)
    && (HasMessage(tx) ==>
          && tx.message in tx.work.messages
          && tx.work.messages[tx.message].scope == Targeted
          && forall u :: (tx.message, u) in tx.work.receipts ==> u in Own(tx))
    && (tx.op.SendOp? && tx.stage == Commit ==> forall u :: u in tx.locked ==> (tx.message, u) !in tx.work.missed)
  }

  ghost predicate SharingOk(tx: Transaction, db: Db) {
    !Exclusive(tx) ==> Agrees(tx, db) && LocksOk(tx)
  }

  /** Two open transactions share the gate, hold different rows and send different messages. */
  ghost predicate Apart(a: Transaction, b: Transaction) {
    && !Exclusive(a) && !Exclusive(b)
    && a.locked * b.locked == {}
    && (HasMessage(a) && HasMessage(b) ==> a.message != b.message)
  }

  /** An answer was exact, but for what its row had missed, at an instant inside the call. */
  predicate AnswerOk(a: Answer, now: int) {
    && a.startedAt <= a.exactAt <= a.returnedAt <= now
    && a.count == |a.truth - a.missed| && IsMax((a.truth - a.missed).Values, a.latest)
  }

  ghost predicate OneOk(tx: Transaction, db: Db, now: int, drawn: set<MessageId>) {
    TransactionOk(tx, db, now) && SharingOk(tx, db) && tx.work.messages.Keys <= drawn
  }

  ghost predicate OpenOk(s: State) {
    && (forall pid :: pid in s.open ==> OneOk(s.open[pid], s.db, s.now, s.drawn))
    && (forall p, q :: p in s.open && q in s.open && p != q ==> Apart(s.open[p], s.open[q]))
  }

  /** What every run keeps. */
  ghost predicate Inv(s: State) {
    && s.now >= 0
    && Good(s.db, s.now, Some({}))
    && s.db.messages.Keys <= s.drawn
    && OpenOk(s)
    && (forall i :: 0 <= i < |s.answers| ==> AnswerOk(s.answers[i], s.now))
  }

  // ----- Statements -----

  lemma TruthAggregates(db: Db, u: UserId, t: int, row: Row)
    requires TellsCounted(db, u, row, t)
    ensures row.count == |Truth(db, u, t) - Missed(db, u)| &&
            IsMax((Truth(db, u, t) - Missed(db, u)).Values, row.latest)
  {
    var truth := Truth(db, u, t) - Missed(db, u);
    assert truth.Keys == Counted(db, u, t);
    assert |truth| == |truth.Keys|;
    assert truth.Values == PublishedAt(db, Counted(db, u, t)) by {
      forall v | v in PublishedAt(db, Counted(db, u, t))
        ensures v in truth.Values
      {
        var id :| id in Counted(db, u, t) && db.messages[id].publishedAt == v;
        assert truth[id] == v;
      }
    }
  }

  lemma SameTruth(db: Db, db': Db, u: UserId, t: int)
    requires db.users == db'.users && db.messages == db'.messages && db.receipts == db'.receipts
    ensures Truth(db, u, t) == Truth(db', u, t)
  {
    assert Recount(db, u, t) == Recount(db', u, t);
  }

  lemma RepairKeeps(tx: Transaction, committed: Db, now: int, sequence: MessageId)
    requires now >= 0 && TransactionOk(tx, committed, now) && tx.stage == Repair
    ensures var out := RunStatement(tx, committed, now, sequence); out.Continue? &&
                                                                   TransactionOk(out.tx, committed, now)
  {
    RefreshRepairs(tx.work, UsersOf(tx.op), true, now, Some({}), Some({}));
    if tx.op.StatusOp? {
      var u := tx.op.user;
      var work := Refresh(tx.work, Some({u}), true, now);
      SameTruth(committed, work, u, now);
      if u in work.rows {
        RefreshedShape(tx.work, u, now);
        assert Fresh(work.rows[u], now) && Trusted(work, u, now);
        TruthAggregates(work, u, now, work.rows[u]);
      }
    }
  }

  lemma InsertKeeps(tx: Transaction, committed: Db, now: int, sequence: MessageId)
    requires now >= 0 && TransactionOk(tx, committed, now) && tx.stage == Insert
    ensures var out := RunStatement(tx, committed, now, sequence); out.Continue? ==>
                                                                   TransactionOk(out.tx, committed, now)
  {
    var SendOp(recipients, expiry) := tx.op;
    if sequence !in tx.work.messages && !(expiry.Some? && expiry.value <= now) {
      InsertMessageKeeps(tx.work, sequence, Message(if recipients.None? then Everyone else Targeted, now, expiry),
                         now, Some({}));
    }
  }

  lemma SameSize(small: set<UserId>, large: set<UserId>)
    requires small <= large && |small| == |large|
    ensures small == large
  {
    assert |large - small| == 0;
  }

  lemma DeliverKeeps(tx: Transaction, committed: Db, now: int, sequence: MessageId)
    requires now >= 0 && TransactionOk(tx, committed, now) && tx.stage == Deliver
    ensures var out := RunStatement(tx, committed, now, sequence); out.Continue? ==>
                                                                   TransactionOk(out.tx, committed, now)
  {
    var ids := tx.op.recipients.value;
    if |ids * tx.work.users.Keys| == |ids| {
      SameSize(ids * tx.work.users.Keys, ids);
      InsertRecipientsKeeps(tx.work, tx.message, ids, now, Some({}));
      DeliveredReaches(tx.work, tx.message, ids);
    }
  }

  lemma DeliveredReaches(db: Db, id: MessageId, ids: set<UserId>)
    requires id in db.messages && db.messages[id].scope == Targeted && ids <= db.users.Keys
    requires forall u :: (id, u) !in db.receipts && (id, u) !in db.missed
    ensures var db' := InsertRecipients(db, id, ids);
            && Reaches(db', id, Some(ids))
            && (forall u :: (id, u) in db'.receipts ==> db'.receipts[(id, u)] == Receipt(None, None))
  {}

  lemma CountKeeps(tx: Transaction, committed: Db, now: int, sequence: MessageId)
    requires now >= 0 && TransactionOk(tx, committed, now) && tx.stage == Count
    ensures var out := RunStatement(tx, committed, now, sequence); out.Continue? &&
                                                                   TransactionOk(out.tx, committed, now)
  {
    AddStatusAgrees(tx.work, tx.message, tx.op.recipients, now, Some({}));
  }

  lemma MutateKeeps(tx: Transaction, committed: Db, now: int, sequence: MessageId)
    requires now >= 0 && TransactionOk(tx, committed, now) && tx.stage == Mutate
    ensures var out := RunStatement(tx, committed, now, sequence); out.Continue? ==>
                                                                   TransactionOk(out.tx, committed, now)
  {
    var db := tx.work;
    match tx.op
    case ReadOp(u, id) =>
      if CanRead(db, u, id, now) { ReceiptWriteKeeps(db, MarkRead(db, u, id, now).receipts, u, now); }
    case DeleteOp(u, id) =>
      if InInbox(db, u, id, now) { ReceiptWriteKeeps(db, MarkDeleted(db, u, id, now).receipts, u, now); }
    case ReadAllOp(u) => MarkAllReadKeeps(db, u, now);
    case RetractOp(id) =>
      if id in db.messages { DeleteMessageKeeps(db, id, now, Some({})); }
    case _ =>
  }

  lemma MarkAllReadKeeps(db: Db, u: UserId, now: int)
    requires Good(db, now, Some({}))
    ensures Good(MarkAllRead(db, u, now), now, Some({u}))
  {
    if u in db.users {
      ReceiptWriteKeeps(db, MarkAllRead(db, u, now).receipts, u, now);
    } else {
      assert Recount(db, u, now) == {};
      assert MarkAllRead(db, u, now).receipts == db.receipts;
      assert MarkAllRead(db, u, now) == db;
    }
  }

  lemma StatementKeeps(tx: Transaction, committed: Db, now: int, sequence: MessageId)
    requires now >= 0 && TransactionOk(tx, committed, now) && tx.stage != Commit
    ensures var out := RunStatement(tx, committed, now, sequence); out.Continue? ==>
                                                                   TransactionOk(out.tx, committed, now)
  {
    match tx.stage
    case Initialize => InitRowsKeeps(tx.work, UsersOf(tx.op), now, Some({}));
    case Repair => RepairKeeps(tx, committed, now, sequence);
    case Insert => InsertKeeps(tx, committed, now, sequence);
    case Deliver => DeliverKeeps(tx, committed, now, sequence);
    case Count => CountKeeps(tx, committed, now, sequence);
    case Mutate => MutateKeeps(tx, committed, now, sequence);
    case Recompute => RefreshRepairs(tx.work, UsersOf(tx.op), false, now, UsersOf(tx.op), Some({}));
  }

  /** An account created in the middle of a transaction disturbs none of it, not even a broadcast that will reach it. */
  lemma RegisterKeeps(tx: Transaction, committed: Db, now: int, u: UserId, createdAt: int)
    requires TransactionOk(tx, committed, now) && u !in committed.users
    ensures TransactionOk(Joined(tx, u, createdAt), AddUser(committed, u, createdAt), now)
  {
    AddUserKeeps(tx.work, u, createdAt, now, if tx.stage == Recompute then UsersOf(tx.op) else Some({}));
  }

  /** As time passes, less is claimed. */
  lemma TransactionLater(tx: Transaction, committed: Db, now: int, later: int)
    requires TransactionOk(tx, committed, now) && now <= later
    ensures TransactionOk(tx, committed, later)
  {
  }
}
