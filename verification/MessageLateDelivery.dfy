/**
Why a send must not name an account that does not exist when it begins: from every quiet state, for every
list that names such an account, a schedule of the model leaves that account's row wrong.
*/
module MessageLateDelivery {
  import opened Options
  import opened MessageStatus
  import opened MessageProtocol
  import opened MessageSharing
  import opened MessageTheorems

  const Sender := Pid(0)
  const Reader := Pid(1)

  /** The send: its list, its expiry and the id it will draw; and the account of the list that does not exist yet. */
  datatype Case = Case(ids: set<UserId>, expiry: Option<int>, id: MessageId, u: UserId)

  /** The send is the only open transaction, at the given stage, and has not come across the account's row. */
  ghost predicate SenderAt(s: State, c: Case, stage: Stage) {
    && Inv(s) && s.open.Keys == {Sender}
    && s.open[Sender].op == SendOp(Some(c.ids), c.expiry) && s.open[Sender].stage == stage
    && c.u in c.ids && c.u !in s.open[Sender].locked && c.u !in s.db.rows
    && (HasMessage(s.open[Sender]) ==> s.open[Sender].message == c.id)
    && (HasMessage(s.open[Sender]) <==> c.id in s.drawn)
    && (c.expiry.Some? ==> c.expiry.value > s.now)
  }

  // ----- One statement -----

  /** One statement of an open transaction that waits for nobody. */
  lemma OneStatement(s: State, pid: Pid, sequence: MessageId, next: Transaction)
    requires Inv(s) && pid in s.open && s.open[pid].stage != Commit
    requires s.open[pid].stage == Insert ==> sequence !in s.drawn
    requires !Waits(s, pid, Touched(s.open[pid]))
    requires RunStatement(s.open[pid], s.db, s.now, sequence) == Continue(next)
    ensures var tx := s.open[pid];
            && Apply(s, Execute(pid, sequence)) ==
               s.(open := s.open[pid := next.(locked := tx.locked + Touched(tx))],
                  drawn := if tx.stage == Insert then s.drawn + {sequence} else s.drawn)
            && Inv(Apply(s, Execute(pid, sequence)))
  {
    hide RunStatement, Touched, Waits, Inv;
    ApplyKeeps(s, Execute(pid, sequence));
  }

  /** What the send sees of a row that is not there. */
  lemma NoRow(s: State, c: Case, stage: Stage)
    requires SenderAt(s, c, stage)
    ensures var tx := s.open[Sender];
            && TransactionOk(tx, s.db, s.now) && Agrees(tx, s.db) && LocksOk(tx) && tx.work.messages.Keys <= s.drawn
            && c.u !in tx.work.rows && tx.work.users == s.db.users && tx.work.rows.Keys <= tx.work.users.Keys
  {
    var tx := s.open[Sender];
    assert OneOk(tx, s.db, s.now, s.drawn);
    assert SameRow(s.db, tx.work, c.u);
    OpenIsWellFormed(tx, s.db, s.now);
  }

  // ----- The send, statement by statement -----

  lemma BeginsInOrder(s: State, pid: Pid, op: Operation)
    requires Inv(s) && MayBegin(s, pid, op)
    ensures var next := Apply(s, Begin(pid, op));
            && Inv(next)
            && next == s.(open := s.open[pid := Transaction(op, Initialize, s.db, {}, 0, s.now, map[], {})])
  {
    hide Inv;
    ApplyKeeps(s, Begin(pid, op));
  }

  lemma SendBegins(s: State, c: Case)
    requires Inv(s) && s.open == map[] && c.u in c.ids && c.u !in s.db.users && c.id !in s.drawn
    requires c.expiry.Some? ==> c.expiry.value > s.now
    ensures var next := Apply(s, Begin(Sender, SendOp(Some(c.ids), c.expiry)));
            SenderAt(next, c, Initialize) && next.db == s.db && next.now == s.now
  {
    BeginsInOrder(s, Sender, SendOp(Some(c.ids), c.expiry));
    assert s.db.rows.Keys <= s.db.users.Keys;
    hide Inv;
  }

  /** Before the account exists the send can neither add its row nor lock it. */
  lemma SendLooks(s: State, c: Case, stage: Stage)
    requires SenderAt(s, c, stage) && c.u !in s.db.users && (stage == Initialize || stage == Repair)
    ensures var next := Apply(s, Execute(Sender, 0));
            SenderAt(next, c, if stage == Initialize then Repair else Insert) && next.db == s.db && next.now == s.now
  {
    hide Inv, InitRows, Refresh, TransactionOk, Agrees, LocksOk;
    NoRow(s, c, stage);
    var tx := s.open[Sender];
    assert c.u !in Touched(tx);
    OneStatement(s, Sender, 0, RunStatement(tx, s.db, s.now, 0).tx);
  }

  lemma SendInserts(s: State, c: Case)
    requires SenderAt(s, c, Insert)
    ensures var next := Apply(s, Execute(Sender, c.id));
            && SenderAt(next, c, Deliver) && next.db == s.db && next.now == s.now
            && c.id in next.open[Sender].work.messages
            && next.open[Sender].work.messages[c.id] == Message(Targeted, s.now, c.expiry)
  {
    hide Inv, TransactionOk, Agrees, LocksOk;
    NoRow(s, c, Insert);
    var tx := s.open[Sender];
    assert c.id !in tx.work.messages;
    OneStatement(s, Sender, c.id, RunStatement(tx, s.db, s.now, c.id).tx);
  }

  lemma SendDelivers(s: State, c: Case, m: Message)
    requires SenderAt(s, c, Deliver) && c.ids <= s.db.users.Keys
    requires c.id in s.open[Sender].work.messages && s.open[Sender].work.messages[c.id] == m
    ensures var next := Apply(s, Execute(Sender, 0));
            && SenderAt(next, c, Count) && next.db == s.db && next.now == s.now
            && Carries(next.open[Sender].work, c, m)
  {
    hide Inv, InsertRecipients, TransactionOk, Agrees, LocksOk;
    NoRow(s, c, Deliver);
    var tx := s.open[Sender];
    assert c.ids * tx.work.users.Keys == c.ids;
    DeliveryCarries(tx.work, c, m);
    OneStatement(s, Sender, 0, RunStatement(tx, s.db, s.now, 0).tx);
  }

  lemma DeliveryCarries(db: Db, c: Case, m: Message)
    requires c.id in db.messages && db.messages[c.id] == m && c.u in c.ids && c.ids <= db.users.Keys
    ensures Carries(InsertRecipients(db, c.id, c.ids), c, m)
  {
    assert (c.id, c.u) in InsertRecipients(db, c.id, c.ids).receipts;
  }

  /** The tables hold the message, unread by the account. */
  predicate Carries(db: Db, c: Case, m: Message) {
    && c.id in db.messages && db.messages[c.id] == m
    && (c.id, c.u) in db.receipts && db.receipts[(c.id, c.u)] == Receipt(None, None)
  }

  /** The count passes over the account, which has no row yet. */
  lemma SendCounts(s: State, c: Case, m: Message)
    requires SenderAt(s, c, Count) && Carries(s.open[Sender].work, c, m)
    ensures var next := Apply(s, Execute(Sender, 0));
            && SenderAt(next, c, Commit) && next.db == s.db && next.now == s.now
            && Carries(next.open[Sender].work, c, m)
  {
    hide Inv, CountedRow, TransactionOk, Agrees, LocksOk;
    NoRow(s, c, Count);
    var tx := s.open[Sender];
    assert c.u !in Touched(tx);
    OneStatement(s, Sender, 0, RunStatement(tx, s.db, s.now, 0).tx);
  }

  // ----- The accounts of the list appear -----

  lemma OneAppears(s: State, c: Case, v: UserId)
    requires SenderAt(s, c, Insert) && v !in s.db.users
    ensures var next := Apply(s, Register(v, s.now));
            SenderAt(next, c, Insert) && next.now == s.now && next.db.users.Keys == s.db.users.Keys + {v}
  {
    hide Inv;
    ApplyKeeps(s, Register(v, s.now));
  }

  lemma RunNothing(s: State)
    ensures Run(s, []) == s
  {
    hide Apply;
  }

  lemma {:induction false} AllAppear(s: State, c: Case, missing: set<UserId>) returns (steps: seq<Step>)
    requires SenderAt(s, c, Insert) && missing == c.ids - s.db.users.Keys
    ensures var next := Run(s, steps); SenderAt(next, c, Insert) && next.now == s.now && c.ids <= next.db.users.Keys
    decreases missing
  {
    hide *;
    if missing == {} {
      RunNothing(s);
      forall v | v in c.ids ensures v in s.db.users.Keys {
        assert v !in missing;
      }
      steps := [];
    } else {
      var v := Pick(missing);
      OneAppears(s, c, v);
      var rest := AllAppear(Apply(s, Register(v, s.now)), c, missing - {v});
      RunFirst(s, Register(v, s.now), rest);
      steps := [Register(v, s.now)] + rest;
    }
  }

  lemma {:induction false} RunAppends(s: State, first: seq<Step>, rest: seq<Step>)
    ensures Run(s, first + rest) == Run(Run(s, first), rest)
    decreases |rest|
  {
    hide Apply;
    if rest == [] {
      assert first + rest == first;
    } else {
      var n := |first| + |rest| - 1;
      assert (first + rest)[..n] == first + rest[..|rest| - 1];
      assert (first + rest)[n] == rest[|rest| - 1];
      RunAppends(s, first, rest[..|rest| - 1]);
    }
  }

  lemma RunFirst(s: State, step: Step, rest: seq<Step>)
    ensures Run(s, [step] + rest) == Run(Apply(s, step), rest)
  {
    hide Apply;
    RunAppends(s, [step], rest);
    assert [step][..0] == [] && Run(s, [step]) == Apply(Run(s, []), step);
  }

  // ----- The account looks at its inbox before the send commits -----

  /** The account's first look has made a row that counts nothing of the send. */
  ghost predicate Looked(s: State, c: Case, m: Message, stage: Stage) {
    && Inv(s) && s.open.Keys == {Sender, Reader}
    && s.open[Sender].op == SendOp(Some(c.ids), c.expiry) && s.open[Sender].stage == Commit
    && s.open[Sender].message == c.id && c.u !in s.open[Sender].locked && c.u in c.ids &&
          Carries(s.open[Sender].work, c, m)
    && s.open[Reader].op.StatusOp? && s.open[Reader].op.user == c.u && s.open[Reader].stage == stage
    && (stage == Initialize || c.u in s.open[Reader].locked)
    && (stage == Repair || stage == Commit ==> c.u in s.open[Reader].work.rows)
    && (stage == Repair ==> Due(s.open[Reader].work.rows[c.u], s.now))
    && (stage == Commit ==> Fresh(s.open[Reader].work.rows[c.u], s.now))
  }

  lemma LookBegins(s: State, c: Case, m: Message)
    requires SenderAt(s, c, Commit) && c.u in s.db.users && Carries(s.open[Sender].work, c, m)
    ensures var next := Apply(s, Begin(Reader, StatusOp(c.u, s.now)));
            Looked(next, c, m, Initialize) && next.now == s.now && next.db == s.db && next.open[Reader].work == s.db
  {
    hide Inv;
    BeginsInOrder(s, Reader, StatusOp(c.u, s.now));
  }

  lemma NobodyWaits(s: State, c: Case, m: Message, stage: Stage)
    requires Looked(s, c, m, stage) && Touched(s.open[Reader]) <= {c.u}
    ensures !Waits(s, Reader, Touched(s.open[Reader]))
  {
    hide Inv, Touched;
    assert s.open[Sender].locked * Touched(s.open[Reader]) == {};
  }

  lemma FirstRow(s: State, u: UserId)
    requires Inv(s) && u in s.db.users && u !in s.db.rows
    ensures var rows := InitRows(s.db, Some({u})).rows; u in rows && Due(rows[u], s.now)
  {
    hide Good, OpenOk;
  }

  lemma ReaderTouches(tx: Transaction, u: UserId)
    requires tx.op.StatusOp? && tx.op.user == u
    ensures Touched(tx) <= {u}
    ensures tx.stage == Initialize && u in tx.work.users ==> u in Touched(tx)
  {
  }

  lemma LookAddsRow(s: State, c: Case, m: Message)
    requires Looked(s, c, m, Initialize) && c.u in s.db.users && c.u !in s.db.rows && s.open[Reader].work == s.db
    ensures var next := Apply(s, Execute(Reader, 0));
            Looked(next, c, m, Repair) && next.now == s.now && next.db == s.db
  {
    hide Inv, InitRows, Touched, Waits, Carries;
    var tx := s.open[Reader];
    FirstRow(s, c.u);
    ReaderTouches(tx, c.u);
    NobodyWaits(s, c, m, Initialize);
    OneStatement(s, Reader, 0, RunStatement(tx, s.db, s.now, 0).tx);
  }

  lemma FreshRow(db: Db, u: UserId, t: int)
    requires u in db.rows && Due(db.rows[u], t)
    ensures var rows := Refresh(db, Some({u}), true, t).rows; u in rows && Fresh(rows[u], t)
  {
    RefreshedShape(db, u, t);
    hide RefreshedRow;
  }

  lemma LookCounts(s: State, c: Case, m: Message)
    requires Looked(s, c, m, Repair)
    ensures var next := Apply(s, Execute(Reader, 0));
            Looked(next, c, m, Commit) && next.now == s.now && next.db == s.db
  {
    hide Inv, Refresh, Touched, Waits, Fresh, Due, Carries, Truth, Missed;
    var tx := s.open[Reader];
    FreshRow(tx.work, c.u, s.now);
    ReaderTouches(tx, c.u);
    NobodyWaits(s, c, m, Repair);
    OneStatement(s, Reader, 0, RunStatement(tx, s.db, s.now, 0).tx);
  }

  // ----- Both commit -----

  lemma ReaderIsInOrder(s: State, c: Case, m: Message)
    requires Looked(s, c, m, Commit)
    ensures var reader := s.open[Reader]; Committable(reader, s.db) && WellFormed(reader.work) &&
                                          reader.work.messages == s.db.messages
  {
    var reader := s.open[Reader];
    assert OneOk(reader, s.db, s.now, s.drawn);
    OpenIsWellFormed(reader, s.db, s.now);
  }

  lemma SenderIsInOrder(s: State, c: Case, m: Message)
    requires Looked(s, c, m, Commit)
    ensures var sender := s.open[Sender]; Committable(sender, s.db) && WellFormed(sender.work) && c.id !in s.db.messages
  {
    var sender := s.open[Sender];
    assert OneOk(sender, s.db, s.now, s.drawn);
    OpenIsWellFormed(sender, s.db, s.now);
  }

  lemma ReadersSendNothing(db: Db, reader: Transaction)
    requires reader.op.StatusOp?
    ensures Merge(db, reader).messages == db.messages
  {
    hide MergedMissed;
  }

  /** The send takes the reader's row over, which misses the message. */
  lemma SenderTakesTheRow(s: State, c: Case, m: Message)
    requires Looked(s, c, m, Commit)
    ensures var work := Merge(s.open[Sender].work, s.open[Reader]);
            && c.u in work.rows && Fresh(work.rows[c.u], s.now)
            && Carries(work, c, m) && (c.id, c.u) in work.missed
  {
    hide Inv, Committable, WellFormed, Merge, Fresh;
    ReaderIsInOrder(s, c, m);
    SenderIsInOrder(s, c, m);
    var sender, reader := s.open[Sender], s.open[Reader];
    var k := (c.id, c.u);
    MergedRow(sender.work, reader, c.u);
    MergedReceipt(sender.work, reader, k);
    MergedMiss(sender.work, reader, k);
    assert !Writes(reader, k);
    ReadersSendNothing(sender.work, reader);
  }

  /** What the account's row is in the end. */
  ghost predicate Miscounted(s: State, c: Case, m: Message) {
    && Inv(s) && s.open == map[]
    && c.u in s.db.rows && Fresh(s.db.rows[c.u], s.now)
    && Carries(s.db, c, m) && (c.id, c.u) in s.db.missed
  }

  lemma ReaderCommits(s: State, c: Case, m: Message)
    requires Looked(s, c, m, Commit)
    ensures var first := Apply(s, Execute(Reader, 0));
            && Inv(first) && first.now == s.now
            && first.open == map[Sender := Merged(s.open[Sender], s.open[Reader])]
  {
    hide Inv, Merge, Carries, Fresh;
    ApplyKeeps(s, Execute(Reader, 0));
    var first := Apply(s, Execute(Reader, 0));
    assert first.open.Keys == {Sender} && first.open[Sender] == Merged(s.open[Sender], s.open[Reader]);
  }

  lemma CommitsItsWork(s: State, pid: Pid)
    requires Inv(s) && pid in s.open
    ensures Merge(s.db, s.open[pid]) == s.open[pid].work
  {
    hide Merge;
    assert OneOk(s.open[pid], s.db, s.now, s.drawn);
    OpenIsWellFormed(s.open[pid], s.db, s.now);
    CommitIsWork(s.open[pid], s.db);
  }

  lemma SenderCommits(s: State, sender: Transaction)
    requires Inv(s) && s.open == map[Sender := sender] && sender.stage == Commit && sender.op.SendOp?
    ensures var next := Apply(s, Execute(Sender, 0));
            Inv(next) && next.now == s.now && next.open == map[] && next.db == sender.work
  {
    hide Inv, Merge;
    ApplyKeeps(s, Execute(Sender, 0));
    CommitsItsWork(s, Sender);
    assert Apply(s, Execute(Sender, 0)).open == map[];
  }

  lemma BothCommit(s: State, c: Case, m: Message)
    requires Looked(s, c, m, Commit)
    ensures var next := Apply(Apply(s, Execute(Reader, 0)), Execute(Sender, 0));
            Miscounted(next, c, m) && next.now == s.now
  {
    ReaderCommits(s, c, m);
    SenderTakesTheRow(s, c, m);
    hide Inv, Apply, Merge, Carries, Fresh;
    SenderCommits(Apply(s, Execute(Reader, 0)), Merged(s.open[Sender], s.open[Reader]));
  }

  /** A row that misses a message still visible and unread is wrong. */
  lemma MiscountedIsWrong(s: State, c: Case, m: Message)
    requires Miscounted(s, c, m) && m.scope == Targeted && m.publishedAt <= s.now
    requires m.expiredAt.Some? ==> m.expiredAt.value > s.now
    ensures c.id in Recount(s.db, c.u, s.now) && !Truthful(s.db, c.u, s.db.rows[c.u], s.now)
  {
    assert (c.id, c.u).1 in s.db.users;
    assert c.id in Recount(s.db, c.u, s.now);
    assert Trusted(s.db, c.u, s.now);
    assert c.id in Missed(s.db, c.u) * Recount(s.db, c.u, s.now);
    hide Recount, Missed, Counted;
    TruthfulExactly(s.db, c.u, s.db.rows[c.u], s.now);
  }

  // ----- The whole schedule -----

  /** The send up to its commit; the accounts of its list appear in the middle of it. */
  lemma SendReachesCommit(s: State, c: Case) returns (steps: seq<Step>, m: Message)
    requires Inv(s) && s.open == map[] && c.u in c.ids && c.u !in s.db.users && c.id !in s.drawn
    requires c.expiry.Some? ==> c.expiry.value > s.now
    ensures var next := Run(s, steps);
            && SenderAt(next, c, Commit) && Carries(next.open[Sender].work, c, m)
            && next.now == s.now && c.u in next.db.users && m == Message(Targeted, s.now, c.expiry)
  {
    hide *;
    m := Message(Targeted, s.now, c.expiry);
    var begin := Begin(Sender, SendOp(Some(c.ids), c.expiry));
    SendBegins(s, c);
    var s1 := Apply(s, begin);
    SendLooks(s1, c, Initialize);
    var s2 := Apply(s1, Execute(Sender, 0));
    SendLooks(s2, c, Repair);
    var s3 := Apply(s2, Execute(Sender, 0));
    var arrivals := AllAppear(s3, c, c.ids - s3.db.users.Keys);
    var s4 := Run(s3, arrivals);
    SendInserts(s4, c);
    var s5 := Apply(s4, Execute(Sender, c.id));
    SendDelivers(s5, c, m);
    var s6 := Apply(s5, Execute(Sender, 0));
    SendCounts(s6, c, m);
    var rest := [Execute(Sender, c.id), Execute(Sender, 0), Execute(Sender, 0)];
    ThreeSteps(s4, rest[0], rest[1], rest[2]);
    RunAppends(s3, arrivals, rest);
    steps := arrivals + rest;
    ThreeFirst(s, begin, Execute(Sender, 0), Execute(Sender, 0), steps);
    steps := [begin, Execute(Sender, 0), Execute(Sender, 0)] + steps;
  }

  lemma ThreeSteps(s: State, a: Step, b: Step, c: Step)
    ensures Run(s, [a, b, c]) == Apply(Apply(Apply(s, a), b), c)
    ensures Run(s, [a, b]) == Apply(Apply(s, a), b)
  {
    hide Apply;
    assert [a, b, c][..2] == [a, b] && [a, b][..1] == [a] && [a][..0] == [];
    assert Run(s, [a]) == Apply(Run(s, []), a);
    assert Run(s, [a, b]) == Apply(Run(s, [a]), b);
  }

  lemma ThreeFirst(s: State, a: Step, b: Step, c: Step, rest: seq<Step>)
    ensures Run(s, [a, b, c] + rest) == Run(Apply(Apply(Apply(s, a), b), c), rest)
  {
    hide Apply;
    RunAppends(s, [a, b, c], rest);
    ThreeSteps(s, a, b, c);
  }

  lemma LookAndCommits(s: State, c: Case, m: Message)
    requires SenderAt(s, c, Commit) && c.u in s.db.users && Carries(s.open[Sender].work, c, m)
    ensures var next := Run(s, [Begin(Reader, StatusOp(c.u, s.now)), Execute(Reader, 0), Execute(Reader, 0)]
                               + [Execute(Reader, 0), Execute(Sender, 0)]);
            Miscounted(next, c, m) && next.now == s.now
  {
    assert c.u !in s.db.rows;
    hide *;
    LookBegins(s, c, m);
    var begin, look := Begin(Reader, StatusOp(c.u, s.now)), Execute(Reader, 0);
    var s1 := Apply(s, begin);
    LookAddsRow(s1, c, m);
    var s2 := Apply(s1, look);
    LookCounts(s2, c, m);
    var s3 := Apply(s2, look);
    BothCommit(s3, c, m);
    ThreeFirst(s, begin, look, look, [look, Execute(Sender, 0)]);
    ThreeSteps(s3, look, Execute(Sender, 0), look);
  }

  /** From every reachable state in which nothing is open, for every list that names an account that does not exist
      and every expiry ahead: a schedule after which nothing is open either, and the account's row, with its deadline
      null or ahead, does not tell the truth. */
  lemma LateRecipientIsMiscounted(now: int, users: map<UserId, int>, before: seq<Step>, c: Case)
    requires now >= 0 && c.u in c.ids
    requires var s := Run(Initial(now, users), before);
             s.open == map[] && c.u !in s.db.users && c.id !in s.drawn && (c.expiry.Some? ==> c.expiry.value > s.now)
    ensures exists after ::
              var s := Run(Initial(now, users), before + after);
              && s.open == map[] && c.u in s.db.rows && Fresh(s.db.rows[c.u], s.now)
              && c.id in Recount(s.db, c.u, s.now) * Missed(s.db, c.u)
              && !Truthful(s.db, c.u, s.db.rows[c.u], s.now)
  {
    hide *;
    Reached(now, users, before);
    var start := Initial(now, users);
    var s := Run(start, before);
    var sending, m := SendReachesCommit(s, c);
    var s1 := Run(s, sending);
    LookAndCommits(s1, c, m);
    var looking := [Begin(Reader, StatusOp(c.u, s1.now)), Execute(Reader, 0), Execute(Reader, 0)]
                   + [Execute(Reader, 0), Execute(Sender, 0)];
    RunAppends(s, sending, looking);
    RunAppends(start, before, sending + looking);
    assert m.expiredAt == c.expiry && m.scope == Targeted && m.publishedAt == s.now;
    var last := Run(start, before + (sending + looking));
    MiscountedIsWrong(last, c, m);
    MiscountedParts(last, c, m);
  }

  lemma MiscountedParts(s: State, c: Case, m: Message)
    requires Miscounted(s, c, m)
    ensures s.open == map[] && c.u in s.db.rows && Fresh(s.db.rows[c.u], s.now) && c.id in Missed(s.db, c.u)
  {
    hide Inv;
  }
}
