/**
Persisted unread statistics: the tables, the meaning of each SQL statement at its own
instant, and the recount the persisted row has to agree with.
*/
module MessageStatus {
  import opened Options

  type UserId = int
  type MessageId = int

  datatype Scope = Everyone | Targeted

  datatype Message = Message(scope: Scope, publishedAt: int, expiredAt: Option<int>)

  datatype Receipt = Receipt(readAt: Option<int>, deletedAt: Option<int>)

  /** One row of t_user_msg_status: unread_count, latest_unread_at and next_refresh_at. */
  datatype Row = Row(count: int, latest: Option<int>, deadline: Option<int>)

  /** `users` maps an account to its creation time.  `missed` is history and decides nothing: the deliveries that
      the recipient's row does not count. */
  datatype Db = Db(
    users: map<UserId, int>,
    messages: map<MessageId, Message>,
    receipts: map<(MessageId, UserId), Receipt>,
    rows: map<UserId, Row>,
    missed: set<(MessageId, UserId)>)

  // ----- Visibility -----

  predicate ExpiredBy(m: Message, t: int) {
    m.expiredAt.Some? && m.expiredAt.value <= t
  }

  /** Broadcasts reach the users registered by publication, targeted messages their recipients. */
  predicate Addressed(db: Db, u: UserId, id: MessageId) {
    && u in db.users && id in db.messages
    && match db.messages[id].scope
       case Everyone => db.messages[id].publishedAt >= db.users[u]
       case Targeted => (id, u) in db.receipts
  }

  predicate Unread(db: Db, u: UserId, id: MessageId) {
    (id, u) in db.receipts ==> db.receipts[(id, u)].readAt.None? && db.receipts[(id, u)].deletedAt.None?
  }

  /** The shared visibility predicate of the inbox, apart from the personal state. */
  predicate InInbox(db: Db, u: UserId, id: MessageId, t: int) {
    Addressed(db, u, id) && db.messages[id].publishedAt <= t && !ExpiredBy(db.messages[id], t)
  }

  /** The full recount: the messages that are visible and unread for a user at an instant. */
  function Recount(db: Db, u: UserId, t: int): set<MessageId> {
    set id | id in db.messages && InInbox(db, u, id, t) && Unread(db, u, id)
  }

  function PublishedAt(db: Db, ids: set<MessageId>): set<int>
    requires ids <= db.messages.Keys
  {
    set id | id in ids :: db.messages[id].publishedAt
  }

  /** A row tells the truth at an instant when it equals the recount. */
  predicate Truthful(db: Db, u: UserId, row: Row, t: int) {
    row.count == |Recount(db, u, t)| && IsMax(PublishedAt(db, Recount(db, u, t)), row.latest)
  }

  /** What a user's row does not count. */
  function Missed(db: Db, u: UserId): (ids: set<MessageId>)
    ensures forall id :: id in ids <==> (id, u) in db.missed
  {
    set k | k in db.missed && k.1 == u :: k.0
  }

  /** The part of the recount that the row has not missed. */
  function Counted(db: Db, u: UserId, t: int): (ids: set<MessageId>)
    ensures ids <= db.messages.Keys
  {
    Recount(db, u, t) - Missed(db, u)
  }

  predicate TellsCounted(db: Db, u: UserId, row: Row, t: int) {
    row.count == |Counted(db, u, t)| && IsMax(PublishedAt(db, Counted(db, u, t)), row.latest)
  }

  predicate Fresh(row: Row, t: int) {
    row.deadline.None? || row.deadline.value > t
  }

  // ----- Aggregates -----

  predicate IsMax(values: set<int>, o: Option<int>) {
    match o
    case None => values == {}
    case Some(v) => v in values && forall w :: w in values ==> w <= v
  }

  predicate IsMin(values: set<int>, o: Option<int>) {
    match o
    case None => values == {}
    case Some(v) => v in values && forall w :: w in values ==> v <= w
  }

  ghost function Pick<T>(values: set<T>): (x: T)
    requires values != {}
    ensures x in values
  {
    var x :| x in values;
    x
  }

  lemma {:induction false} MaxExists(values: set<int>)
    requires values != {}
    ensures exists v :: v in values && forall w :: w in values ==> w <= v
  {
    var x := Pick(values);
    if values != {x} {
      MaxExists(values - {x});
      var y :| y in values - {x} && forall w :: w in values - {x} ==> w <= y;
      var v := if x < y then y else x;
      assert forall w :: w in values ==> w == x || w in values - {x};
      assert v in values && forall w :: w in values ==> w <= v;
    }
  }

  lemma {:induction false} MinExists(values: set<int>)
    requires values != {}
    ensures exists v :: v in values && forall w :: w in values ==> v <= w
  {
    var x := Pick(values);
    if values != {x} {
      MinExists(values - {x});
      var y :| y in values - {x} && forall w :: w in values - {x} ==> y <= w;
      var v := if x < y then x else y;
      assert forall w :: w in values ==> w == x || w in values - {x};
      assert v in values && forall w :: w in values ==> v <= w;
    }
  }

  /** SQL MAX and MIN: null on no rows. */
  function Max(values: set<int>): (o: Option<int>)
    ensures IsMax(values, o)
  {
    if values == {} then None
    else
      MaxExists(values);
      var v :| v in values && forall w :: w in values ==> w <= v;
      Some(v)
  }

  function Min(values: set<int>): (o: Option<int>)
    ensures IsMin(values, o)
  {
    if values == {} then None
    else
      MinExists(values);
      var v :| v in values && forall w :: w in values ==> v <= w;
      Some(v)
  }

  /** GREATEST and LEAST ignore nulls. */
  function Greatest(a: Option<int>, b: int): Option<int> {
    if a.None? || a.value < b then Some(b) else a
  }

  function Least(a: Option<int>, b: Option<int>): Option<int> {
    if a.None? then b else if b.None? || a.value < b.value then a else b
  }

  // ----- Statements, each at one instant -----

  /** The users a transaction is about; None stands for everyone. */
  predicate Chosen(users: Option<set<UserId>>, u: UserId) {
    users.None? || u in users.value
  }

  /** INSERT of missing rows with an epoch deadline, ON CONFLICT DO NOTHING. */
  function InitRows(db: Db, users: Option<set<UserId>>): Db {
    db.(rows := (map u | u in db.users && Chosen(users, u) :: Row(0, None, Some(0))) + db.rows)
  }

  /** The messages a refresh aggregates: addressed, unread and not expired, published or not. */
  function Pool(db: Db, u: UserId, t: int): set<MessageId> {
    set id | id in db.messages && Addressed(db, u, id) && !ExpiredBy(db.messages[id], t) && Unread(db, u, id)
  }

  /** When a pooled message next changes the count: on publication, else on expiry. */
  function ChangesAt(m: Message, t: int): Option<int> {
    if m.publishedAt > t then Some(m.publishedAt) else m.expiredAt
  }

  function Deadlines(db: Db, ids: set<MessageId>, t: int): set<int>
    requires ids <= db.messages.Keys
  {
    set id | id in ids && ChangesAt(db.messages[id], t).Some? :: ChangesAt(db.messages[id], t).value
  }

  function RefreshedRow(db: Db, u: UserId, t: int): Row {
    var pool := Pool(db, u, t);
    var seen := set id | id in pool && db.messages[id].publishedAt <= t;
    Row(|seen|, Max(PublishedAt(db, seen)), Min(Deadlines(db, pool, t)))
  }

  predicate Due(row: Row, t: int) {
    row.deadline.Some? && row.deadline.value <= t
  }

  predicate Recomputes(db: Db, users: Option<set<UserId>>, dueOnly: bool, t: int, u: UserId) {
    u in db.rows && Chosen(users, u) && (!dueOnly || Due(db.rows[u], t))
  }

  function RepairedRow(db: Db, users: Option<set<UserId>>, dueOnly: bool, t: int, u: UserId): Row
    requires u in db.rows
  {
    if Recomputes(db, users, dueOnly, t, u) then RefreshedRow(db, u, t) else db.rows[u]
  }

  /** refreshStatus: recompute the chosen rows, or only those whose deadline has passed; a recomputed row misses
      nothing. */
  function Refresh(db: Db, users: Option<set<UserId>>, dueOnly: bool, t: int): Db {
    db.(rows := map u | u in db.rows :: RepairedRow(db, users, dueOnly, t, u),
        missed := set k | k in db.missed && !Recomputes(db, users, dueOnly, t, k.1))
  }

  /** A broadcast is addressed to its readers at once; their rows do not count it yet. */
  function InsertMessage(db: Db, id: MessageId, m: Message): Db {
    db.(messages := db.messages[id := m],
        missed := db.missed + set u | u in db.rows && m.scope == Everyone && u in db.users &&
                  m.publishedAt >= db.users[u] :: (id, u))
  }

  /** INSERT ... SELECT id FROM t_user WHERE id = ANY(ids); the recipients' rows do not count the message yet. */
  function InsertRecipients(db: Db, id: MessageId, ids: set<UserId>): Db {
    db.(receipts := db.receipts + map u | u in db.users && u in ids :: (id, u) := Receipt(None, None),
        missed := db.missed + set u | u in db.rows && u in db.users && u in ids :: (id, u))
  }

  /** Whom a new message is counted for: those registered by its publication, or its recipients. */
  predicate CountedFor(db: Db, users: Option<set<UserId>>, published: int, u: UserId) {
    u in db.users && if users.None? then db.users[u] <= published else u in users.value
  }

  function CountedRow(db: Db, users: Option<set<UserId>>, published: int, expiry: Option<int>, u: UserId): Row
    requires u in db.rows
  {
    var row := db.rows[u];
    if CountedFor(db, users, published, u)
    then Row(row.count + 1, Greatest(row.latest, published), Least(row.deadline, expiry)) else row
  }

  /** addStatus: count the new message for the rows it is addressed to, without a recount. */
  function AddStatus(db: Db, id: MessageId, users: Option<set<UserId>>, published: int, expiry: Option<int>): Db {
    db.(rows := map u | u in db.rows :: CountedRow(db, users, published, expiry, u),
        missed := set k | k in db.missed && !(k.0 == id && CountedFor(db, users, published, k.1)))
  }

  function ReceiptOf(db: Db, u: UserId, id: MessageId): Receipt {
    if (id, u) in db.receipts then db.receipts[(id, u)] else Receipt(None, None)
  }

  function Coalesce(a: Option<int>, t: int): Option<int> {
    if a.Some? then a else Some(t)
  }

  predicate CanRead(db: Db, u: UserId, id: MessageId, t: int) {
    InInbox(db, u, id, t) && ReceiptOf(db, u, id).deletedAt.None?
  }

  function MarkRead(db: Db, u: UserId, id: MessageId, t: int): Db {
    var r := ReceiptOf(db, u, id);
    db.(receipts := db.receipts[(id, u) := r.(readAt := Coalesce(r.readAt, t))])
  }

  function MarkDeleted(db: Db, u: UserId, id: MessageId, t: int): Db {
    var r := ReceiptOf(db, u, id);
    db.(receipts := db.receipts[(id, u) := r.(deletedAt := Coalesce(r.deletedAt, t))])
  }

  function MarkAllRead(db: Db, u: UserId, t: int): Db {
    db.(receipts := db.receipts + map id | id in Recount(db, u, t) :: (id, u) := Receipt(Some(t), None))
  }

  /** DELETE of a message cascades to its receipts. */
  function DeleteMessage(db: Db, id: MessageId): Db {
    db.(messages := db.messages - {id},
        receipts := map k | k in db.receipts && k.0 != id :: db.receipts[k],
        missed := set k | k in db.missed && k.0 != id)
  }

  function AddUser(db: Db, u: UserId, createdAt: int): Db {
    db.(users := db.users[u := createdAt])
  }

  /** Deleting an account cascades to its receipts and its row. */
  function DropUser(db: Db, u: UserId): Db {
    Db(db.users - {u}, db.messages, map k | k in db.receipts && k.1 != u :: db.receipts[k], db.rows - {u},
       set k | k in db.missed && k.1 != u)
  }

  // ----- The invariant -----

  /** ck_user_msg_status_count and ck_user_msg_status_latest. */
  predicate RowShape(row: Row) {
    row.count >= 0 && (row.count == 0 <==> row.latest.None?)
  }

  /** Foreign keys and check constraints; only rows miss deliveries. */
  predicate WellFormed(db: Db) {
    && db.rows.Keys <= db.users.Keys
    && (forall u :: u in db.rows ==> RowShape(db.rows[u]))
    && (forall k :: k in db.receipts ==> k.0 in db.messages && k.1 in db.users)
    && (forall k :: k in db.missed ==> k.0 in db.messages && k.1 in db.rows)
    && (forall id :: id in db.messages && db.messages[id].expiredAt.Some? ==>
          db.messages[id].publishedAt < db.messages[id].expiredAt.value)
  }

  /** A row may be relied on at any instant from now on, as long as nothing is written and its deadline is ahead: it
      counts all but what it has missed. */
  ghost predicate Trusted(db: Db, u: UserId, now: int)
    requires u in db.rows
  {
    forall t :: t >= now && Fresh(db.rows[u], t) ==> TellsCounted(db, u, db.rows[u], t)
  }

  /** All rows but those of the given users can be relied on. */
  ghost predicate Good(db: Db, now: int, stale: Option<set<UserId>>) {
    WellFormed(db) && forall u :: u in db.rows && !Chosen(stale, u) ==> Trusted(db, u, now)
  }

  /** A row that counts all but what it has missed tells the truth exactly when it has missed nothing that is visible
      and unread. */
  lemma TruthfulExactly(db: Db, u: UserId, row: Row, t: int)
    requires TellsCounted(db, u, row, t)
    ensures Truthful(db, u, row, t) <==> Missed(db, u) * Recount(db, u, t) == {}
  {
    var recount, missed := Recount(db, u, t), Missed(db, u);
    assert |recount| == |recount - missed| + |missed * recount| by {
      assert recount == (recount - missed) + (missed * recount);
    }
    if missed * recount == {} {
      assert forall id :: id in recount ==> id !in missed * recount;
      assert Counted(db, u, t) == recount;
    }
  }

  lemma GoodLater(db: Db, now: int, later: int, stale: Option<set<UserId>>)
    requires Good(db, now, stale) && now <= later
    ensures Good(db, later, stale)
  {}

  // ----- What each statement does to the invariant -----

  /** Until its new deadline a refreshed row stays equal to the recount: nothing is published and nothing expires
      before. */
  lemma RecountIsStable(db: Db, u: UserId, t: int, later: int)
    requires t <= later && Fresh(RefreshedRow(db, u, t), later)
    ensures Recount(db, u, later) == Recount(db, u, t)
  {
    var pool := Pool(db, u, t);
    forall id | id in db.messages
      ensures id in Recount(db, u, later) <==> id in Recount(db, u, t)
    {
      var m := db.messages[id];
      if id in pool && ChangesAt(m, t).Some? {
        assert ChangesAt(m, t).value in Deadlines(db, pool, t);
      }
    }
  }

  lemma RefreshedShape(db: Db, u: UserId, t: int)
    ensures RowShape(RefreshedRow(db, u, t)) && Fresh(RefreshedRow(db, u, t), t)
  {
    var pool := Pool(db, u, t);
    var seen := set id | id in pool && db.messages[id].publishedAt <= t;
    if seen != {} {
      var id := Pick(seen);
      assert db.messages[id].publishedAt in PublishedAt(db, seen);
    }
    var deadlines := Deadlines(db, pool, t);
    forall d | d in deadlines
      ensures d > t
    {
      var id :| id in pool && ChangesAt(db.messages[id], t) == Some(d);
    }
  }

  lemma RefreshedIsTrusted(db: Db, u: UserId, t: int)
    requires Missed(db, u) == {}
    ensures forall later :: later >= t && Fresh(RefreshedRow(db, u, t), later) ==>
              TellsCounted(db, u, RefreshedRow(db, u, t), later)
  {
    var pool := Pool(db, u, t);
    assert (set id | id in pool && db.messages[id].publishedAt <= t) == Recount(db, u, t);
    forall later | later >= t && Fresh(RefreshedRow(db, u, t), later)
      ensures TellsCounted(db, u, RefreshedRow(db, u, t), later)
    {
      RecountIsStable(db, u, t, later);
      assert Counted(db, u, later) == Recount(db, u, t);
    }
  }

  /** The recount reads neither the rows nor the history. */
  lemma RowsDoNotMatter(db: Db, rows: map<UserId, Row>, missed: set<(MessageId, UserId)>, u: UserId, t: int)
    ensures var db' := db.(rows := rows, missed := missed);
            && Recount(db', u, t) == Recount(db, u, t)
            && RefreshedRow(db', u, t) == RefreshedRow(db, u, t)
  {
    var db' := db.(rows := rows, missed := missed);
    assert Recount(db', u, t) == Recount(db, u, t);
    assert Pool(db', u, t) == Pool(db, u, t);
    var pool := Pool(db, u, t);
    assert Deadlines(db', pool, t) == Deadlines(db, pool, t);
    var seen := set id | id in pool && db.messages[id].publishedAt <= t;
    assert PublishedAt(db', seen) == PublishedAt(db, seen);
  }

  lemma TrustedTransfers(db: Db, db': Db, u: UserId, now: int)
    requires u in db.rows && u in db'.rows && db'.rows[u] == db.rows[u] && Trusted(db, u, now)
    requires forall t :: t >= now ==> Counted(db', u, t) == Counted(db, u, t)
    requires forall id, t :: t >= now && id in Counted(db, u, t) ==>
                             id in db'.messages && db'.messages[id] == db.messages[id]
    ensures Trusted(db', u, now)
  {
    hide Counted;
    forall t | t >= now && Fresh(db'.rows[u], t)
      ensures TellsCounted(db', u, db'.rows[u], t)
    {
      assert TellsCounted(db, u, db.rows[u], t);
      assert PublishedAt(db', Counted(db', u, t)) == PublishedAt(db, Counted(db, u, t));
    }
  }

  /** The same messages, delivered alike and missed alike, are counted alike. */
  ghost predicate Alike(db: Db, db': Db, u: UserId) {
    && db'.messages == db.messages
    && (u in db'.users <==> u in db.users) && (u in db.users ==> db'.users[u] == db.users[u])
    && (forall id :: (id, u) in db'.receipts <==> (id, u) in db.receipts)
    && (forall id :: (id, u) in db.receipts ==> db'.receipts[(id, u)] == db.receipts[(id, u)])
    && (forall id :: (id, u) in db'.missed <==> (id, u) in db.missed)
  }

  lemma CountedAlike(db: Db, db': Db, u: UserId, t: int)
    requires Alike(db, db', u)
    ensures Counted(db', u, t) == Counted(db, u, t)
  {
    assert Recount(db', u, t) == Recount(db, u, t);
    assert forall id :: id in Missed(db', u) <==> id in Missed(db, u);
  }

  lemma TrustedAlike(db: Db, db': Db, u: UserId, now: int)
    requires Alike(db, db', u)
    requires u in db.rows && u in db'.rows && db'.rows[u] == db.rows[u] && Trusted(db, u, now)
    ensures Trusted(db', u, now)
  {
    forall t ensures Counted(db', u, t) == Counted(db, u, t) {
      CountedAlike(db, db', u, t);
    }
    assert db'.messages == db.messages;
    hide Counted, Alike;
    TrustedTransfers(db, db', u, now);
  }

  lemma InitRowsKeeps(db: Db, users: Option<set<UserId>>, now: int, stale: Option<set<UserId>>)
    requires Good(db, now, stale) && now >= 0
    ensures Good(InitRows(db, users), now, stale)
  {
    var db' := InitRows(db, users);
    forall u | u in db'.rows && !Chosen(stale, u)
      ensures Trusted(db', u, now)
    {
      if u in db.rows {
        TrustedAlike(db, db', u, now);
      }
    }
  }

  /** Fewer rows need to be relied on. */
  lemma GoodGrows(db: Db, now: int, stale: Option<set<UserId>>, more: Option<set<UserId>>)
    requires Good(db, now, stale) && forall u :: Chosen(stale, u) ==> Chosen(more, u)
    ensures Good(db, now, more)
  {}

  /** A recomputed row tells the whole truth until its deadline, whatever it had missed. */
  lemma RecomputedIsTrusted(db: Db, users: Option<set<UserId>>, dueOnly: bool, now: int, u: UserId)
    requires Recomputes(db, users, dueOnly, now, u)
    ensures var db' := Refresh(db, users, dueOnly, now); u in db'.rows && Missed(db', u) == {} && Trusted(db', u, now)
  {
    var db' := Refresh(db, users, dueOnly, now);
    RowsDoNotMatter(db, db'.rows, db'.missed, u, now);
    assert Missed(db', u) == {};
    RefreshedIsTrusted(db', u, now);
  }

  /** A refresh repairs every chosen row, so only those it leaves out stay in doubt; a due-only refresh keeps the
      rows it does not touch. */
  lemma RefreshRepairs(db: Db, users: Option<set<UserId>>, dueOnly: bool, now: int, stale: Option<set<UserId>>,
                       left: Option<set<UserId>>)
    requires Good(db, now, stale)
    requires forall u :: Chosen(stale, u) ==> Chosen(left, u) || (!dueOnly && Chosen(users, u))
    ensures Good(Refresh(db, users, dueOnly, now), now, left)
  {
    var db' := Refresh(db, users, dueOnly, now);
    forall u | u in db'.rows
      ensures RowShape(db'.rows[u])
    {
      RefreshedShape(db, u, now);
    }
    forall u | u in db'.rows && !Chosen(left, u)
      ensures Trusted(db', u, now)
    {
      if Recomputes(db, users, dueOnly, now, u) {
        RecomputedIsTrusted(db, users, dueOnly, now, u);
      } else {
        TrustedAlike(db, db', u, now);
      }
    }
  }

  /** Writing one user's receipts only matters to that user. */
  lemma ReceiptWriteKeeps(db: Db, receipts: map<(MessageId, UserId), Receipt>, u: UserId, now: int)
    requires Good(db, now, Some({})) && u in db.users
    requires forall k: (MessageId, UserId) :: k.1 != u ==>
                                  (k in receipts <==> k in db.receipts) &&
                                      (k in receipts ==> receipts[k] == db.receipts[k])
    requires forall k :: k in receipts ==> k.0 in db.messages && k.1 in db.users
    ensures Good(db.(receipts := receipts), now, Some({u}))
  {
    var db' := db.(receipts := receipts);
    forall v | v in db'.rows && v != u
      ensures Trusted(db', v, now)
    {
      hide Trusted;
      forall id
        ensures (id, v) in receipts <==> (id, v) in db.receipts
        ensures (id, v) in db.receipts ==> receipts[(id, v)] == db.receipts[(id, v)]
      {
        assert (id, v).1 != u;
      }
      TrustedAlike(db, db', v, now);
    }
    hide Trusted;
  }

  lemma DeleteMessageKeeps(db: Db, id: MessageId, now: int, stale: Option<set<UserId>>)
    requires Good(db, now, stale)
    ensures Good(DeleteMessage(db, id), now, None)
  {}

  lemma AddUserKeeps(db: Db, u: UserId, createdAt: int, now: int, stale: Option<set<UserId>>)
    requires Good(db, now, stale) && u !in db.users
    ensures Good(AddUser(db, u, createdAt), now, stale)
  {
    var db' := AddUser(db, u, createdAt);
    forall v | v in db'.rows && !Chosen(stale, v)
      ensures Trusted(db', v, now)
    {
      assert v != u;
      TrustedAlike(db, db', v, now);
    }
  }

  lemma DropUserKeeps(db: Db, u: UserId, now: int)
    requires Good(db, now, Some({}))
    ensures Good(DropUser(db, u), now, Some({}))
  {
    var db' := DropUser(db, u);
    forall v | v in db'.rows
      ensures Trusted(db', v, now)
    {
      TrustedAlike(db, db', v, now);
    }
  }

  // ----- Sending -----

  /** The rows still count what they counted before the message. */
  lemma InsertMessageKeeps(db: Db, id: MessageId, m: Message, now: int, stale: Option<set<UserId>>)
    requires Good(db, now, stale) && id !in db.messages
    requires m.expiredAt.Some? ==> m.publishedAt < m.expiredAt.value
    ensures Good(InsertMessage(db, id, m), now, stale)
  {
    var db' := InsertMessage(db, id, m);
    forall u | u in db'.rows && !Chosen(stale, u)
      ensures Trusted(db', u, now)
    {
      forall t ensures Counted(db', u, t) == Counted(db, u, t) {
        NewMessageIsMissed(db, id, m, u, t);
      }
      TrustedTransfers(db, db', u, now);
    }
  }

  lemma NewMessageIsMissed(db: Db, id: MessageId, m: Message, u: UserId, t: int)
    requires WellFormed(db) && id !in db.messages && u in db.rows
    ensures Counted(InsertMessage(db, id, m), u, t) == Counted(db, u, t)
  {
    var db' := InsertMessage(db, id, m);
    forall other ensures other in Counted(db', u, t) <==> other in Counted(db, u, t) {
      if other == id {
        assert (id, u) !in db.receipts;
      }
    }
  }

  lemma InsertRecipientsKeeps(db: Db, id: MessageId, ids: set<UserId>, now: int, stale: Option<set<UserId>>)
    requires Good(db, now, stale) && id in db.messages && db.messages[id].scope == Targeted
    requires forall u :: (id, u) !in db.receipts
    ensures Good(InsertRecipients(db, id, ids), now, stale)
  {
    var db' := InsertRecipients(db, id, ids);
    forall u | u in db'.rows && !Chosen(stale, u)
      ensures Trusted(db', u, now)
    {
      forall t ensures Counted(db', u, t) == Counted(db, u, t) {
        DeliveryIsMissed(db, id, ids, u, t);
      }
      TrustedTransfers(db, db', u, now);
    }
  }

  lemma DeliveryIsMissed(db: Db, id: MessageId, ids: set<UserId>, u: UserId, t: int)
    requires WellFormed(db) && u in db.rows && id in db.messages && db.messages[id].scope == Targeted
    requires (id, u) !in db.receipts
    ensures Counted(InsertRecipients(db, id, ids), u, t) == Counted(db, u, t)
  {
    var db' := InsertRecipients(db, id, ids);
    forall other ensures other in Counted(db', u, t) <==> other in Counted(db, u, t) {
      if other != id {
        assert (other, u) in db'.receipts <==> (other, u) in db.receipts;
        assert (other, u) in db'.missed <==> (other, u) in db.missed;
      } else if u in ids {
        assert (id, u) in db'.missed;
      } else {
        assert (id, u) !in db'.receipts;
      }
    }
  }

  /** The rows a send counts its message for are exactly those it is addressed to, and none counts it yet. */
  predicate Reaches(db: Db, id: MessageId, users: Option<set<UserId>>) {
    && id in db.messages
    && (match users
        case None => db.messages[id].scope == Everyone
        case Some(ids) => db.messages[id].scope == Targeted &&
                          forall u :: u in db.users ==> ((id, u) in db.receipts <==> u in ids))
    && forall u :: u in db.rows ==> ((id, u) in db.missed <==> CountedFor(db, users, db.messages[id].publishedAt, u))
  }

  /** Counting a new message by increment agrees with a recount, although the statements of the send run at
      different instants: a row that fell due in between is not relied on, and one whose deadline is ahead gains
      exactly the new message. */
  lemma AddStatusAgrees(db: Db, id: MessageId, users: Option<set<UserId>>, now: int, stale: Option<set<UserId>>)
    requires Good(db, now, stale) && Reaches(db, id, users)
    requires forall u :: (id, u) in db.receipts ==> db.receipts[(id, u)] == Receipt(None, None)
    requires db.messages[id].publishedAt <= now
    ensures var m := db.messages[id]; var db' := AddStatus(db, id, users, m.publishedAt, m.expiredAt);
            Good(db', now, stale) && forall u :: (id, u) !in db'.missed
  {
    var m := db.messages[id];
    var db' := AddStatus(db, id, users, m.publishedAt, m.expiredAt);
    AddedIsWellFormed(db, id, users);
    hide WellFormed, Trusted, AddStatus;
    forall u | u in db'.rows && !Chosen(stale, u)
      ensures Trusted(db', u, now)
    {
      AddedIsTrusted(db, id, users, now, u);
    }
  }

  lemma AddedIsWellFormed(db: Db, id: MessageId, users: Option<set<UserId>>)
    requires WellFormed(db) && Reaches(db, id, users)
    ensures var m := db.messages[id]; var db' := AddStatus(db, id, users, m.publishedAt, m.expiredAt);
            WellFormed(db') && db'.rows.Keys == db.rows.Keys && forall u :: (id, u) !in db'.missed
  {
    var m := db.messages[id];
    forall u ensures (id, u) !in AddStatus(db, id, users, m.publishedAt, m.expiredAt).missed {
      assert (id, u) in db.missed ==> (id, u).1 in db.rows;
    }
  }

  lemma AddedIsTrusted(db: Db, id: MessageId, users: Option<set<UserId>>, now: int, u: UserId)
    requires WellFormed(db) && Reaches(db, id, users) && u in db.rows && Trusted(db, u, now)
    requires forall u :: (id, u) in db.receipts ==> db.receipts[(id, u)] == Receipt(None, None)
    requires db.messages[id].publishedAt <= now
    ensures var m := db.messages[id]; var db' := AddStatus(db, id, users, m.publishedAt, m.expiredAt);
            u in db'.rows && Trusted(db', u, now)
  {
    var m := db.messages[id];
    var db' := AddStatus(db, id, users, m.publishedAt, m.expiredAt);
    hide TellsCounted;
    assert Addressed(db, u, id) <==> CountedFor(db, users, m.publishedAt, u);
    forall t | t >= now && Fresh(db'.rows[u], t)
      ensures TellsCounted(db', u, db'.rows[u], t)
    {
      assert TellsCounted(db, u, db.rows[u], t);
      AddedRowTells(db, id, users, u, t);
    }
  }

  lemma AddedRowTells(db: Db, id: MessageId, users: Option<set<UserId>>, u: UserId, t: int)
    requires u in db.rows && id in db.messages && TellsCounted(db, u, db.rows[u], t)
    requires db.messages[id].publishedAt <= t && Unread(db, u, id)
    requires CountedFor(db, users, db.messages[id].publishedAt, u) ==> !ExpiredBy(db.messages[id], t)
    requires Addressed(db, u, id) <==> CountedFor(db, users, db.messages[id].publishedAt, u)
    requires (id, u) in db.missed <==> CountedFor(db, users, db.messages[id].publishedAt, u)
    ensures var db' := AddStatus(db, id, users, db.messages[id].publishedAt, db.messages[id].expiredAt);
            TellsCounted(db', u, db'.rows[u], t)
  {
    var m := db.messages[id];
    var db' := AddStatus(db, id, users, m.publishedAt, m.expiredAt);
    CountedWithMessage(db, id, users, u, t);
    var published := PublishedAt(db, Counted(db, u, t));
    assert db'.rows[u] == CountedRow(db, users, m.publishedAt, m.expiredAt, u);
    hide Counted, AddStatus, PublishedAt, Least;
    GreatestIsMax(published, db.rows[u].latest, m.publishedAt);
    hide Greatest, IsMax;
  }

  lemma GreatestIsMax(values: set<int>, latest: Option<int>, another: int)
    requires IsMax(values, latest)
    ensures IsMax(values + {another}, Greatest(latest, another))
    ensures values + {} == values
  {}

  /** What counting one message adds to what a row counts and to the publication times it aggregates. */
  lemma CountedWithMessage(db: Db, id: MessageId, users: Option<set<UserId>>, u: UserId, t: int)
    requires id in db.messages && db.messages[id].publishedAt <= t && Unread(db, u, id)
    requires CountedFor(db, users, db.messages[id].publishedAt, u) ==> !ExpiredBy(db.messages[id], t)
    requires Addressed(db, u, id) <==> CountedFor(db, users, db.messages[id].publishedAt, u)
    requires (id, u) in db.missed <==> CountedFor(db, users, db.messages[id].publishedAt, u)
    ensures var m := db.messages[id]; var db' := AddStatus(db, id, users, m.publishedAt, m.expiredAt);
            var before, after := Counted(db, u, t), Counted(db', u, t);
            var gained := CountedFor(db, users, m.publishedAt, u);
            && id !in before
            && after == before + (if gained then {id} else {})
            && PublishedAt(db', after) == PublishedAt(db, before) + (if gained then {m.publishedAt} else {})
  {
    var m := db.messages[id];
    var db' := AddStatus(db, id, users, m.publishedAt, m.expiredAt);
    var before, after := Counted(db, u, t), Counted(db', u, t);
    CountedGains(db, id, users, u, t);
    assert db'.messages == db.messages;
    hide AddStatus, CountedFor, Addressed, Unread, ExpiredBy, PublishedAt, Counted;
    SamePublished(db, db', after);
    OneMorePublished(db, before, id);
    hide Recount;
  }

  lemma CountedGains(db: Db, id: MessageId, users: Option<set<UserId>>, u: UserId, t: int)
    requires id in db.messages && db.messages[id].publishedAt <= t && Unread(db, u, id)
    requires CountedFor(db, users, db.messages[id].publishedAt, u) ==> !ExpiredBy(db.messages[id], t)
    requires Addressed(db, u, id) <==> CountedFor(db, users, db.messages[id].publishedAt, u)
    requires (id, u) in db.missed <==> CountedFor(db, users, db.messages[id].publishedAt, u)
    ensures var m := db.messages[id]; var db' := AddStatus(db, id, users, m.publishedAt, m.expiredAt);
            && id !in Counted(db, u, t)
            && Counted(db', u, t) == if CountedFor(db, users, m.publishedAt, u) then Counted(db, u, t) + {id}
                  else Counted(db, u, t)
  {
    var m := db.messages[id];
    var db' := AddStatus(db, id, users, m.publishedAt, m.expiredAt);
    var gained := CountedFor(db, users, m.publishedAt, u);
    assert id in Recount(db, u, t) <==> gained;
    RowsDoNotMatter(db, db'.rows, db'.missed, u, t);
    assert forall other :: (other, u) in db'.missed <==> (other, u) in db.missed && !(gained && other == id);
    hide AddStatus, Recount, CountedFor, Addressed, Unread, ExpiredBy;
  }

  lemma SamePublished(db: Db, db': Db, ids: set<MessageId>)
    requires ids <= db.messages.Keys && db'.messages == db.messages
    ensures PublishedAt(db', ids) == PublishedAt(db, ids)
  {}

  lemma OneMorePublished(db: Db, before: set<MessageId>, id: MessageId)
    requires before <= db.messages.Keys && id in db.messages
    ensures PublishedAt(db, before + {id}) == PublishedAt(db, before) + {db.messages[id].publishedAt}
  {}

  // ----- What the mutations mean for the recount -----

  /** Reading or deleting a message takes exactly that message out of its user's recount, at every instant; nobody
      else's recount changes, and doing it again changes nothing more. */
  lemma ReadTakesOne(db: Db, u: UserId, id: MessageId, t: int, v: UserId, later: int)
    requires CanRead(db, u, id, t)
    ensures Recount(MarkRead(db, u, id, t), v, later) ==
        (if v == u then Recount(db, v, later) - {id} else Recount(db, v, later))
    ensures MarkRead(MarkRead(db, u, id, t), u, id, later) == MarkRead(db, u, id, t)
  {
    MarkTakesOne(db, MarkRead(db, u, id, t), u, id, v, later);
    assert MarkRead(MarkRead(db, u, id, t), u, id, later).receipts == MarkRead(db, u, id, t).receipts;
  }

  lemma DeleteTakesOne(db: Db, u: UserId, id: MessageId, t: int, v: UserId, later: int)
    requires InInbox(db, u, id, t)
    ensures Recount(MarkDeleted(db, u, id, t), v, later) ==
        (if v == u then Recount(db, v, later) - {id} else Recount(db, v, later))
    ensures MarkDeleted(MarkDeleted(db, u, id, t), u, id, later) == MarkDeleted(db, u, id, t)
    ensures !CanRead(MarkDeleted(db, u, id, t), u, id, later)
  {
    MarkTakesOne(db, MarkDeleted(db, u, id, t), u, id, v, later);
    assert MarkDeleted(MarkDeleted(db, u, id, t), u, id, later).receipts == MarkDeleted(db, u, id, t).receipts;
  }

  lemma MarkTakesOne(db: Db, after: Db, u: UserId, id: MessageId, v: UserId, t: int)
    requires after == db.(receipts := after.receipts) && (id, u) in after.receipts && !Unread(after, u, id)
    requires Addressed(db, u, id)
    requires forall k :: k != (id, u) ==>
                         (k in after.receipts <==> k in db.receipts) &&
                             (k in db.receipts ==> after.receipts[k] == db.receipts[k])
    ensures Recount(after, v, t) == (if v == u then Recount(db, v, t) - {id} else Recount(db, v, t))
  {
    forall other ensures other in Recount(after, v, t) <==> other in Recount(db, v, t) && !(v == u && other == id) {
      if other in db.messages && (other, v) != (id, u) {
        assert (other, v) in after.receipts <==> (other, v) in db.receipts;
      }
    }
  }

  /** Reading everything leaves exactly what becomes visible afterwards. */
  lemma ReadAllTakesTheVisible(db: Db, u: UserId, t: int, v: UserId, later: int)
    ensures Recount(MarkAllRead(db, u, t), v, later) ==
        (if v == u then Recount(db, v, later) - Recount(db, v, t) else Recount(db, v, later))
    ensures Recount(MarkAllRead(db, u, t), u, t) == {}
  {
    var after := MarkAllRead(db, u, t);
    forall id ensures id in Recount(after, v, later) <==>
        id in Recount(db, v, later) && !(v == u && id in Recount(db, v, t)) {
      assert v == u && id in Recount(db, u, t) ==> after.receipts[(id, u)] == Receipt(Some(t), None);
      assert !(v == u && id in Recount(db, u, t)) ==> ((id, v) in after.receipts <==> (id, v) in db.receipts);
    }
    forall id ensures id !in Recount(after, u, t) {
      assert id in Recount(db, u, t) ==> after.receipts[(id, u)] == Receipt(Some(t), None);
      assert id !in Recount(db, u, t) ==> ((id, u) in after.receipts <==> (id, u) in db.receipts);
    }
  }
}
