/** The two tables created by `Database._init_schema` and the meaning of every
    SQL statement and query the repositories send, as pure functions on the
    contents of the SQLite file. */
module Schema {
  import opened Common

  /** The values admitted by `CHECK(role IN ('user', 'assistant'))`. */
  datatype Role = UserRole | AssistantRole

  function RoleName(r: Role): string {
    match r
    case UserRole => "user"
    case AssistantRole => "assistant"
  }

  /** The CHECK constraint on `messages.role`: which text values are stored, as which role. */
  function ParseRole(s: string): (r: Option<Role>)
    ensures r.Some? <==> (s == "user" || s == "assistant")
    ensures r.Some? ==> RoleName(r.value) == s
  {
    if s == "user" then Some(UserRole)
    else if s == "assistant" then Some(AssistantRole)
    else None
  }

  /** A row of `users`. `createdAt` is `CURRENT_TIMESTAMP` in whole seconds. */
  datatype User = User(id: int, telegramId: int, username: Option<string>, createdAt: nat)

  /** A row of `messages`. */
  datatype Message = Message(id: int, userId: int, role: Role, content: string, createdAt: nat)

  /** The contents of the database file: which tables exist, their rows in
      insertion order, and the AUTOINCREMENT counters of `sqlite_sequence`
      (the largest id ever handed out in each table). */
  datatype Tables = Tables(
    usersTable: bool,
    messagesTable: bool,
    users: seq<User>,
    messages: seq<Message>,
    userSeq: int,
    messageSeq: int)

  const EmptyFile: Tables := Tables(false, false, [], [], 0, 0)

  /** The statements sent through `Database.execute`. */
  datatype Statement =
    | CreateUsersTable
    | CreateMessagesTable
    | CreateUserIdIndex
    | CreateCreatedAtIndex
    | InsertUser(telegramId: int, username: Option<string>)
    | UpdateUsername(name: string, telegramId: int)
    | InsertMessage(userId: int, role: string, content: Option<string>)
    | DeleteMessages(userId: int)

  /** The four statements of `_init_schema`, in the order it runs them. */
  const SchemaStatements: seq<Statement> :=
    [CreateUsersTable, CreateMessagesTable, CreateUserIdIndex, CreateCreatedAtIndex]

  /** The queries sent through `Database.fetch_one` and `Database.fetch_all`. */
  datatype Query =
    | UserByTelegramId(telegramId: int)
    | UserById(id: int)
    | LastInsertedMessage
    | History(userId: int, limit: int)
    | MessageCount(userId: int)

  /** A result row. `HistoryRow` carries only the three selected columns. */
  datatype Row =
    | UserRow(user: User)
    | MessageRow(message: Message)
    | HistoryRow(role: Role, content: string, createdAt: nat)
    | CountRow(count: nat)

  datatype DbError =
    | NotConnected
    | NoSuchTable(table: string)
    | UniqueViolation
    | NotNullViolation
    | CheckViolation
    | EngineFault

  /** What a statement that completes does: the new file contents, the
      cursor's `rowcount`, and the rowid of an inserted row. */
  datatype Change = Change(after: Tables, rowcount: nat, rowid: Option<int>)

  // ---------------------------------------------------------------------------
  // The table invariants that SQLite maintains

  /** Ids grow with insertion order and never exceed the AUTOINCREMENT
      counter; `telegram_id` is UNIQUE. */
  ghost predicate UsersWellFormed(users: seq<User>, userSeq: int) {
    (forall i, j :: 0 <= i < j < |users| ==> users[i].id < users[j].id)
    && (forall i, j :: 0 <= i < j < |users| ==> users[i].telegramId != users[j].telegramId)
    && (forall i :: 0 <= i < |users| ==> 0 < users[i].id <= userSeq)
  }

  /** Ids grow with insertion order and never exceed the AUTOINCREMENT
      counter; timestamps never decrease along the table and never lie in
      the future of the clock `now`. */
  ghost predicate MessagesWellFormed(msgs: seq<Message>, messageSeq: int, now: nat) {
    (forall i, j :: 0 <= i < j < |msgs| ==> msgs[i].id < msgs[j].id)
    && (forall i, j :: 0 <= i < j < |msgs| ==> msgs[i].createdAt <= msgs[j].createdAt)
    && (forall i :: 0 <= i < |msgs| ==> 0 < msgs[i].id <= messageSeq && msgs[i].createdAt <= now)
  }

  ghost predicate WellFormed(t: Tables, now: nat) {
    0 <= t.userSeq && 0 <= t.messageSeq
    && (!t.usersTable ==> t.users == [])
    && (!t.messagesTable ==> t.messages == [])
    && UsersWellFormed(t.users, t.userSeq)
    && MessagesWellFormed(t.messages, t.messageSeq, now)
  }

  // ---------------------------------------------------------------------------
  // Helpers over the rows

  predicate HasTelegramId(users: seq<User>, tid: int) {
    exists i :: 0 <= i < |users| && users[i].telegramId == tid
  }

  /** Number of rows `WHERE telegram_id = tid`. */
  function CountTelegramId(users: seq<User>, tid: int): nat {
    if users == [] then 0
    else
      var last := users[|users| - 1];
      CountTelegramId(users[..|users| - 1], tid) + (if last.telegramId == tid then 1 else 0)
  }

  /** `UPDATE users SET username = name WHERE telegram_id = tid`. */
  function Rename(users: seq<User>, tid: int, name: string): (r: seq<User>)
    ensures |r| == |users|
    ensures forall i :: 0 <= i < |users| && users[i].telegramId != tid ==> r[i] == users[i]
    ensures forall i :: 0 <= i < |users| && users[i].telegramId == tid ==> r[i] == users[i].(username := Some(name))
  {
    seq(|users|, i requires 0 <= i < |users| =>
      if users[i].telegramId == tid then users[i].(username := Some(name)) else users[i])
  }

  /** The username UPDATE keeps every row's id, telegram id and join time,
      and who can be found by telegram id. */
  lemma RenameKeepsKeys(users: seq<User>, tid: int, name: string, other: int)
    ensures forall i :: 0 <= i < |users| ==>
      && Rename(users, tid, name)[i].id == users[i].id
      && Rename(users, tid, name)[i].telegramId == users[i].telegramId
      && Rename(users, tid, name)[i].createdAt == users[i].createdAt
    ensures HasTelegramId(Rename(users, tid, name), other) <==> HasTelegramId(users, other)
  {
    var r := Rename(users, tid, name);
    assert forall i :: 0 <= i < |users| ==> r[i].telegramId == users[i].telegramId;
  }

  function UsersWithTelegramId(users: seq<User>, tid: int): seq<Row> {
    if users == [] then []
    else
      var last := users[|users| - 1];
      UsersWithTelegramId(users[..|users| - 1], tid) + (if last.telegramId == tid then [UserRow(last)] else [])
  }

  function UsersWithId(users: seq<User>, id: int): seq<Row> {
    if users == [] then []
    else
      var last := users[|users| - 1];
      UsersWithId(users[..|users| - 1], id) + (if last.id == id then [UserRow(last)] else [])
  }

  function MessagesWithId(msgs: seq<Message>, id: int): seq<Row> {
    if msgs == [] then []
    else
      var last := msgs[|msgs| - 1];
      MessagesWithId(msgs[..|msgs| - 1], id) + (if last.id == id then [MessageRow(last)] else [])
  }

  /** Number of rows `WHERE user_id = uid`. */
  function CountFor(msgs: seq<Message>, uid: int): nat {
    if msgs == [] then 0
    else
      var last := msgs[|msgs| - 1];
      CountFor(msgs[..|msgs| - 1], uid) + (if last.userId == uid then 1 else 0)
  }

  /** The rows kept by `DELETE FROM messages WHERE user_id = uid`. */
  function Without(msgs: seq<Message>, uid: int): seq<Message> {
    if msgs == [] then []
    else
      var last := msgs[|msgs| - 1];
      Without(msgs[..|msgs| - 1], uid) + (if last.userId == uid then [] else [last])
  }

  /** The `role, content, created_at` projection of a message. */
  function Entry(m: Message): Row {
    HistoryRow(m.role, m.content, m.createdAt)
  }

  /** The column `created_at` of a row, where it has one. */
  function CreatedAt(r: Row): nat {
    match r
    case UserRow(u) => u.createdAt
    case MessageRow(m) => m.createdAt
    case HistoryRow(_, _, c) => c
    case CountRow(_) => 0
  }

  /** The projected rows of one user, as a bag: what `WHERE user_id = uid`
      selects before any ordering. */
  function EntriesOf(msgs: seq<Message>, uid: int): multiset<Row> {
    if msgs == [] then multiset{}
    else
      var last := msgs[|msgs| - 1];
      EntriesOf(msgs[..|msgs| - 1], uid) + (if last.userId == uid then multiset{Entry(last)} else multiset{})
  }

  /** One order `ORDER BY created_at DESC` may give: latest insertion first.
      SQLite leaves rows with equal `created_at` in no promised order, so
      nothing beyond `IsHistoryWindow` is claimed about this choice. */
  function NewestFirst(msgs: seq<Message>, uid: int): seq<Row> {
    if msgs == [] then []
    else
      var last := msgs[|msgs| - 1];
      (if last.userId == uid then [Entry(last)] else []) + NewestFirst(msgs[..|msgs| - 1], uid)
  }

  /** `LIMIT limit`; a negative limit means no limit in SQLite. */
  function Limit(rows: seq<Row>, limit: int): (r: seq<Row>)
    ensures |r| == if limit < 0 || limit >= |rows| then |rows| else limit
    ensures r == rows[..|r|]
  {
    if limit < 0 || limit >= |rows| then rows else rows[..limit]
  }

  /** `LIMIT n` keeps rows of the input only, and keeps their order. */
  lemma LimitKeepsOrder(rows: seq<Row>, limit: int)
    ensures multiset(Limit(rows, limit)) <= multiset(rows)
    ensures NonIncreasing(rows) ==> NonIncreasing(Limit(rows, limit))
  {
    var r := Limit(rows, limit);
    assert rows == r + rows[|r|..];
    assert multiset(rows) == multiset(r) + multiset(rows[|r|..]);
  }

  /** What SQL promises of `SELECT role, content, created_at FROM messages
      WHERE user_id = uid ORDER BY created_at DESC LIMIT limit`: as many rows
      as the limit allows, all of them the user's, in non-increasing
      `created_at`, and no row left out is newer than one returned. */
  ghost predicate IsHistoryWindow(msgs: seq<Message>, uid: int, limit: int, rows: seq<Row>) {
    var all := EntriesOf(msgs, uid);
    |rows| == (if limit < 0 || limit >= |all| then |all| else limit)
    && multiset(rows) <= all
    && NonIncreasing(rows)
    && (forall e :: e in all - multiset(rows) ==> forall i :: 0 <= i < |rows| ==> CreatedAt(e) <= CreatedAt(rows[i]))
  }

  // ---------------------------------------------------------------------------
  // Statement and query semantics

  /** Runs one statement against the file at time `now`. An `Err` leaves the
      file as it was: the statement is rolled back. */
  function Apply(t: Tables, now: nat, s: Statement): (r: Result<Change, DbError>)
    ensures r.Ok? ==> (t.usersTable ==> r.value.after.usersTable) && (t.messagesTable ==> r.value.after.messagesTable)
    ensures r.Ok? ==> t.userSeq <= r.value.after.userSeq && t.messageSeq <= r.value.after.messageSeq
    ensures r.Ok? && !s.InsertUser? && !s.UpdateUsername? ==> r.value.after.users == t.users
    ensures r.Ok? && !s.InsertMessage? && !s.DeleteMessages? ==> r.value.after.messages == t.messages
    ensures r.Ok? && (s.InsertUser? || s.InsertMessage?) ==> r.value.rowcount == 1 && r.value.rowid.Some?
  {
    match s
    case CreateUsersTable => Ok(Change(t.(usersTable := true), 0, None))
    case CreateMessagesTable => Ok(Change(t.(messagesTable := true), 0, None))
    case CreateUserIdIndex =>
      if t.messagesTable then Ok(Change(t, 0, None)) else Err(NoSuchTable("messages"))
    case CreateCreatedAtIndex =>
      if t.messagesTable then Ok(Change(t, 0, None)) else Err(NoSuchTable("messages"))
    case InsertUser(tid, name) =>
      if !t.usersTable then Err(NoSuchTable("users"))
      else if HasTelegramId(t.users, tid) then Err(UniqueViolation)
      else
        var u := User(t.userSeq + 1, tid, name, now);
        Ok(Change(t.(users := t.users + [u], userSeq := u.id), 1, Some(u.id)))
    case UpdateUsername(name, tid) =>
      if !t.usersTable then Err(NoSuchTable("users"))
      else Ok(Change(t.(users := Rename(t.users, tid, name)), CountTelegramId(t.users, tid), None))
    case InsertMessage(uid, role, content) =>
      if !t.messagesTable then Err(NoSuchTable("messages"))
      else if content.None? then Err(NotNullViolation)
      else if ParseRole(role).None? then Err(CheckViolation)
      else
        var m := Message(t.messageSeq + 1, uid, ParseRole(role).value, content.value, now);
        Ok(Change(t.(messages := t.messages + [m], messageSeq := m.id), 1, Some(m.id)))
    case DeleteMessages(uid) =>
      if !t.messagesTable then Err(NoSuchTable("messages"))
      else Ok(Change(t.(messages := Without(t.messages, uid)), CountFor(t.messages, uid), None))
  }

  /** The rows a query selects; `lastRowid` is the connection's
      `last_insert_rowid()`. */
  function Select(t: Tables, lastRowid: int, q: Query): (r: Result<seq<Row>, DbError>)
    ensures r.Err? ==> r.error.NoSuchTable?
    ensures q.MessageCount? && r.Ok? ==> |r.value| == 1
    ensures q.History? && r.Ok? && 0 <= q.limit ==> |r.value| <= q.limit
  {
    match q
    case UserByTelegramId(tid) =>
      if t.usersTable then Ok(UsersWithTelegramId(t.users, tid)) else Err(NoSuchTable("users"))
    case UserById(id) =>
      if t.usersTable then Ok(UsersWithId(t.users, id)) else Err(NoSuchTable("users"))
    case LastInsertedMessage =>
      if t.messagesTable then Ok(MessagesWithId(t.messages, lastRowid)) else Err(NoSuchTable("messages"))
    case History(uid, limit) =>
      if t.messagesTable then Ok(Limit(NewestFirst(t.messages, uid), limit)) else Err(NoSuchTable("messages"))
    case MessageCount(uid) =>
      if t.messagesTable then Ok([CountRow(CountFor(t.messages, uid))]) else Err(NoSuchTable("messages"))
  }

  /** `fetch_one`: the first selected row, or None when nothing matches. */
  function FirstRow(r: Result<seq<Row>, DbError>): (o: Result<Option<Row>, DbError>)
    ensures r.Err? ==> o == Err(r.error)
    ensures r.Ok? && r.value == [] ==> o == Ok(None)
    ensures r.Ok? && r.value != [] ==> o == Ok(Some(r.value[0]))
  {
    match r
    case Err(e) => Err(e)
    case Ok(rows) => Ok(if rows == [] then None else Some(rows[0]))
  }

  // ---------------------------------------------------------------------------
  // Lookups

  /** The row `WHERE telegram_id = tid`, found from the newest end. */
  function FindUser(users: seq<User>, tid: int): (r: Option<User>)
    ensures r.Some? <==> HasTelegramId(users, tid)
    ensures r.Some? ==> r.value in users && r.value.telegramId == tid
  {
    if users == [] then None
    else if users[|users| - 1].telegramId == tid then Some(users[|users| - 1])
    else
      var r := FindUser(users[..|users| - 1], tid);
      assert HasTelegramId(users, tid) ==> HasTelegramId(users[..|users| - 1], tid);
      r
  }

  /** With `telegram_id` UNIQUE, the lookup by telegram id selects exactly the
      one matching row, or none. */
  lemma {:induction false} SelectByTelegramId(users: seq<User>, userSeq: int, tid: int)
    requires UsersWellFormed(users, userSeq)
    ensures UsersWithTelegramId(users, tid) == if HasTelegramId(users, tid) then [UserRow(FindUser(users, tid).value)] else []
    decreases |users|
  {
    if users != [] {
      var init := users[..|users| - 1];
      assert UsersWellFormed(init, userSeq);
      SelectByTelegramId(init, userSeq, tid);
      if users[|users| - 1].telegramId == tid {
        assert !HasTelegramId(init, tid);
      } else {
        assert HasTelegramId(users, tid) ==> HasTelegramId(init, tid);
      }
    }
  }

  /** `telegram_id` is UNIQUE, so an UPDATE by telegram id hits at most one
      row, and hits one exactly when the user exists. */
  lemma {:induction false} CountTelegramIdAtMostOne(users: seq<User>, userSeq: int, tid: int)
    requires UsersWellFormed(users, userSeq)
    ensures CountTelegramId(users, tid) == if HasTelegramId(users, tid) then 1 else 0
    decreases |users|
  {
    if users != [] {
      var init := users[..|users| - 1];
      assert UsersWellFormed(init, userSeq);
      CountTelegramIdAtMostOne(init, userSeq, tid);
      if users[|users| - 1].telegramId == tid {
        assert !HasTelegramId(init, tid);
      } else {
        assert HasTelegramId(users, tid) ==> HasTelegramId(init, tid);
      }
    }
  }

  /** Ids are unique, so the lookup by id selects at most one row, and that
      row carries the id asked for. */
  lemma {:induction false} SelectById(users: seq<User>, userSeq: int, id: int)
    requires UsersWellFormed(users, userSeq)
    ensures |UsersWithId(users, id)| <= 1
    ensures UsersWithId(users, id) != [] <==> exists i :: 0 <= i < |users| && users[i].id == id
    ensures forall r :: r in UsersWithId(users, id) ==> r.UserRow? && r.user in users && r.user.id == id
    decreases |users|
  {
    if users != [] {
      var init := users[..|users| - 1];
      assert UsersWellFormed(init, userSeq);
      SelectById(init, userSeq, id);
      if users[|users| - 1].id == id {
        assert forall i :: 0 <= i < |init| ==> init[i].id < id;
      }
      assert (exists i :: 0 <= i < |users| && users[i].id == id) ==>
        (users[|users| - 1].id == id || exists i :: 0 <= i < |init| && init[i].id == id);
    }
  }

  /** `SELECT * FROM messages WHERE id = last_insert_rowid()` right after an
      insert finds exactly the row just inserted, because its id exceeds every
      earlier id. */
  lemma {:induction false} SelectLastInserted(msgs: seq<Message>, m: Message)
    requires forall i :: 0 <= i < |msgs| ==> msgs[i].id < m.id
    ensures MessagesWithId(msgs + [m], m.id) == [MessageRow(m)]
  {
    NoMessageWithId(msgs, m.id);
    assert (msgs + [m])[..|msgs|] == msgs;
  }

  lemma {:induction false} NoMessageWithId(msgs: seq<Message>, id: int)
    requires forall i :: 0 <= i < |msgs| ==> msgs[i].id != id
    ensures MessagesWithId(msgs, id) == []
    decreases |msgs|
  {
    if msgs != [] {
      NoMessageWithId(msgs[..|msgs| - 1], id);
    }
  }

  // ---------------------------------------------------------------------------
  // Counting and deleting

  /** COUNT(*) is the size of the user's bag of rows. */
  lemma {:induction false} CountIsEntries(msgs: seq<Message>, uid: int)
    ensures CountFor(msgs, uid) == |EntriesOf(msgs, uid)|
    ensures CountFor(msgs, uid) > 0 <==> exists i :: 0 <= i < |msgs| && msgs[i].userId == uid
    decreases |msgs|
  {
    if msgs != [] {
      var init := msgs[..|msgs| - 1];
      CountIsEntries(init, uid);
      assert (exists i :: 0 <= i < |msgs| && msgs[i].userId == uid) ==>
        (msgs[|msgs| - 1].userId == uid || exists i :: 0 <= i < |init| && init[i].userId == uid);
    }
  }

  /** The DELETE of one user's messages keeps only rows of other users, all
      taken from the table, and removes as many rows as that user had. */
  lemma {:induction false} WithoutKeepsOthers(msgs: seq<Message>, uid: int)
    ensures forall m :: m in Without(msgs, uid) ==> m in msgs && m.userId != uid
    ensures |msgs| - |Without(msgs, uid)| == CountFor(msgs, uid)
    decreases |msgs|
  {
    if msgs != [] {
      var init := msgs[..|msgs| - 1];
      WithoutKeepsOthers(init, uid);
    }
  }

  /** After the DELETE no row of `uid` is left. */
  lemma {:induction false} WithoutEmptiesUser(msgs: seq<Message>, uid: int)
    ensures CountFor(Without(msgs, uid), uid) == 0
    decreases |msgs|
  {
    if msgs != [] {
      var init := msgs[..|msgs| - 1];
      var last := msgs[|msgs| - 1];
      WithoutEmptiesUser(init, uid);
      var w := Without(init, uid);
      if last.userId != uid {
        assert Without(msgs, uid) == w + [last];
        assert (w + [last])[..|w|] == w;
      } else {
        assert Without(msgs, uid) == w + [];
        assert w + [] == w;
      }
    }
  }

  /** The DELETE of one user's messages leaves every other user with the
      same rows. */
  lemma {:induction false} WithoutSparesOthers(msgs: seq<Message>, uid: int, other: int)
    requires other != uid
    ensures EntriesOf(Without(msgs, uid), other) == EntriesOf(msgs, other)
    decreases |msgs|
  {
    if msgs != [] {
      var init := msgs[..|msgs| - 1];
      var last := msgs[|msgs| - 1];
      WithoutSparesOthers(init, uid, other);
      var w := Without(init, uid);
      if last.userId != uid {
        assert Without(msgs, uid) == w + [last];
        assert (w + [last])[..|w|] == w;
      } else {
        assert Without(msgs, uid) == w + [];
        assert w + [] == w;
      }
    }
  }

  /** A row newer than every row of a well-formed table, and within its
      bounds, can be appended to it. */
  lemma AppendNewerWellFormed(w: seq<Message>, last: Message, messageSeq: int, now: nat)
    requires MessagesWellFormed(w, messageSeq, now)
    requires 0 < last.id <= messageSeq && last.createdAt <= now
    requires forall k :: 0 <= k < |w| ==> w[k].id < last.id && w[k].createdAt <= last.createdAt
    ensures MessagesWellFormed(w + [last], messageSeq, now)
  {
  }

  /** Deleting keeps the surviving rows in their order, so the table
      invariant survives a DELETE. */
  lemma {:induction false} WithoutWellFormed(msgs: seq<Message>, messageSeq: int, now: nat, uid: int)
    requires MessagesWellFormed(msgs, messageSeq, now)
    ensures MessagesWellFormed(Without(msgs, uid), messageSeq, now)
    decreases |msgs|
  {
    if msgs != [] {
      var init := msgs[..|msgs| - 1];
      var last := msgs[|msgs| - 1];
      assert MessagesWellFormed(init, messageSeq, now);
      WithoutWellFormed(init, messageSeq, now, uid);
      var w := Without(init, uid);
      if last.userId != uid {
        WithoutKeepsOthers(init, uid);
        forall k | 0 <= k < |w|
          ensures w[k].id < last.id && w[k].createdAt <= last.createdAt
        {
          var m := w[k];
          assert m in init;
          var j :| 0 <= j < |init| && init[j] == m;
          assert msgs[j] == m;
        }
        AppendNewerWellFormed(w, last, messageSeq, now);
        assert Without(msgs, uid) == w + [last];
      }
    }
  }

  // ---------------------------------------------------------------------------
  // The table invariants hold after every statement

  /** Appending a user with a fresh telegram id and the next id keeps the
      user table's invariant. */
  lemma AppendUserWellFormed(users: seq<User>, userSeq: int, u: User)
    requires UsersWellFormed(users, userSeq) && 0 <= userSeq
    requires u.id == userSeq + 1 && !HasTelegramId(users, u.telegramId)
    ensures UsersWellFormed(users + [u], u.id)
  {
    assert forall i :: 0 <= i < |users| ==> users[i].telegramId != u.telegramId;
  }

  /** Renaming keeps ids and telegram ids, so the user table's invariant. */
  lemma RenameWellFormed(users: seq<User>, userSeq: int, tid: int, name: string)
    requires UsersWellFormed(users, userSeq)
    ensures UsersWellFormed(Rename(users, tid, name), userSeq)
  {
    var r := Rename(users, tid, name);
    assert forall i :: 0 <= i < |users| ==> r[i].id == users[i].id && r[i].telegramId == users[i].telegramId;
  }

  /** Appending a message stamped `now` with the next id keeps the message
      table's invariant. */
  lemma AppendMessageWellFormed(msgs: seq<Message>, messageSeq: int, now: nat, m: Message)
    requires MessagesWellFormed(msgs, messageSeq, now) && 0 <= messageSeq
    requires m.id == messageSeq + 1 && m.createdAt == now
    ensures MessagesWellFormed(msgs + [m], m.id, now)
  {
  }

  /** Every statement that completes leaves the file well formed. */
  lemma ApplyPreservesWellFormed(t: Tables, now: nat, s: Statement)
    requires WellFormed(t, now)
    ensures Apply(t, now, s).Ok? ==> WellFormed(Apply(t, now, s).value.after, now)
  {
    match s
    case DeleteMessages(uid) =>
      WithoutWellFormed(t.messages, t.messageSeq, now, uid);
    case InsertUser(tid, name) =>
      if t.usersTable && !HasTelegramId(t.users, tid) {
        AppendUserWellFormed(t.users, t.userSeq, User(t.userSeq + 1, tid, name, now));
      }
    case UpdateUsername(name, tid) =>
      RenameWellFormed(t.users, t.userSeq, tid, name);
    case InsertMessage(uid, role, content) =>
      if t.messagesTable && content.Some? && ParseRole(role).Some? {
        AppendMessageWellFormed(t.messages, t.messageSeq, now,
          Message(t.messageSeq + 1, uid, ParseRole(role).value, content.value, now));
      }
    case _ =>
  }

  /** AUTOINCREMENT: a new row's id is greater than every id already in its
      table, and is the rowid the insert reports. */
  lemma AutoIncrement(t: Tables, now: nat, s: Statement)
    requires WellFormed(t, now)
    requires s.InsertUser? || s.InsertMessage?
    requires Apply(t, now, s).Ok?
    ensures Apply(t, now, s).value.rowid.Some?
    ensures s.InsertUser? ==>
      var after := Apply(t, now, s).value.after;
      && after.users == t.users + [after.users[|after.users| - 1]]
      && after.users[|after.users| - 1].id == Apply(t, now, s).value.rowid.value
      && forall i :: 0 <= i < |t.users| ==> t.users[i].id < Apply(t, now, s).value.rowid.value
    ensures s.InsertMessage? ==>
      var after := Apply(t, now, s).value.after;
      && after.messages == t.messages + [after.messages[|after.messages| - 1]]
      && after.messages[|after.messages| - 1].id == Apply(t, now, s).value.rowid.value
      && forall i :: 0 <= i < |t.messages| ==> t.messages[i].id < Apply(t, now, s).value.rowid.value
  {
  }

  /** `telegram_id INTEGER UNIQUE NOT NULL`: inserting a user succeeds exactly
      when the table exists and holds no row with that telegram id; afterwards
      there is exactly one. */
  lemma InsertUserConstraint(t: Tables, now: nat, tid: int, name: Option<string>)
    requires WellFormed(t, now)
    ensures Apply(t, now, InsertUser(tid, name)).Ok? <==> t.usersTable && !HasTelegramId(t.users, tid)
    ensures Apply(t, now, InsertUser(tid, name)).Ok? ==>
      CountTelegramId(Apply(t, now, InsertUser(tid, name)).value.after.users, tid) == 1
  {
    if Apply(t, now, InsertUser(tid, name)).Ok? {
      var after := Apply(t, now, InsertUser(tid, name)).value.after;
      ApplyPreservesWellFormed(t, now, InsertUser(tid, name));
      CountTelegramIdAtMostOne(after.users, after.userSeq, tid);
      assert after.users[|after.users| - 1].telegramId == tid;
    }
  }

  /** `role TEXT CHECK(role IN ('user', 'assistant')) NOT NULL` and
      `content TEXT NOT NULL`: a message is stored exactly when the table
      exists, the content is present and the role is one of the two names. */
  lemma InsertMessageConstraint(t: Tables, now: nat, uid: int, role: string, content: Option<string>)
    ensures Apply(t, now, InsertMessage(uid, role, content)).Ok?
        <==> t.messagesTable && content.Some? && (role == "user" || role == "assistant")
    ensures content.None? && t.messagesTable ==> Apply(t, now, InsertMessage(uid, role, content)) == Err(NotNullViolation)
    ensures content.Some? && t.messagesTable && role != "user" && role != "assistant" ==>
      Apply(t, now, InsertMessage(uid, role, content)) == Err(CheckViolation)
  {
  }

  // ---------------------------------------------------------------------------
  // History ordering

  lemma {:induction false} NewestFirstEntries(msgs: seq<Message>, uid: int)
    ensures multiset(NewestFirst(msgs, uid)) == EntriesOf(msgs, uid)
    decreases |msgs|
  {
    if msgs != [] {
      NewestFirstEntries(msgs[..|msgs| - 1], uid);
    }
  }

  lemma {:induction false} NewestFirstBounded(msgs: seq<Message>, uid: int, bound: nat)
    requires forall i :: 0 <= i < |msgs| ==> msgs[i].createdAt <= bound
    ensures forall k :: 0 <= k < |NewestFirst(msgs, uid)| ==> CreatedAt(NewestFirst(msgs, uid)[k]) <= bound
    decreases |msgs|
  {
    if msgs != [] {
      NewestFirstBounded(msgs[..|msgs| - 1], uid, bound);
    }
  }

  /** Over a table whose timestamps never decrease, latest-first is in
      non-increasing `created_at`. */
  lemma {:induction false} NewestFirstSorted(msgs: seq<Message>, uid: int)
    requires forall i, j :: 0 <= i < j < |msgs| ==> msgs[i].createdAt <= msgs[j].createdAt
    ensures NonIncreasing(NewestFirst(msgs, uid))
    decreases |msgs|
  {
    if msgs != [] {
      var init := msgs[..|msgs| - 1];
      var last := msgs[|msgs| - 1];
      NewestFirstSorted(init, uid);
      NewestFirstBounded(init, uid, last.createdAt);
      var rest := NewestFirst(init, uid);
      if last.userId == uid {
        var rows := [Entry(last)] + rest;
        forall i, j | 0 <= i < j < |rows|
          ensures CreatedAt(rows[j]) <= CreatedAt(rows[i])
        {
          assert rows[j] == rest[j - 1];
          if i > 0 {
            assert rows[i] == rest[i - 1];
          }
        }
      }
    }
  }

  ghost predicate NonIncreasing(rows: seq<Row>) {
    forall i, j :: 0 <= i < j < |rows| ==> CreatedAt(rows[j]) <= CreatedAt(rows[i])
  }

  /** Cutting a non-increasing sequence after `k` rows leaves out nothing
      newer than what it keeps. */
  lemma PrefixIsNewest(all: seq<Row>, k: nat)
    requires k <= |all| && NonIncreasing(all)
    ensures multiset(all) - multiset(all[..k]) == multiset(all[k..])
    ensures forall e :: e in multiset(all[k..]) ==> forall i :: 0 <= i < k ==> CreatedAt(e) <= CreatedAt(all[i])
  {
    assert all == all[..k] + all[k..];
    assert multiset(all) == multiset(all[..k]) + multiset(all[k..]);
    forall e | e in multiset(all[k..])
      ensures forall i :: 0 <= i < k ==> CreatedAt(e) <= CreatedAt(all[i])
    {
      var j :| 0 <= j < |all[k..]| && all[k..][j] == e;
      assert e == all[k + j];
    }
  }

  /** The rows the engine returns for the history query meet everything SQL
      promises of `ORDER BY created_at DESC LIMIT limit`. */
  lemma HistoryQueryIsWindow(msgs: seq<Message>, messageSeq: int, now: nat, uid: int, limit: int)
    requires MessagesWellFormed(msgs, messageSeq, now)
    ensures IsHistoryWindow(msgs, uid, limit, Limit(NewestFirst(msgs, uid), limit))
  {
    var all := NewestFirst(msgs, uid);
    var rows := Limit(all, limit);
    NewestFirstEntries(msgs, uid);
    NewestFirstSorted(msgs, uid);
    PrefixIsNewest(all, |rows|);
  }

  /** Appending a message adds its projection to the user's bag. */
  lemma EntriesAppend(msgs: seq<Message>, m: Message, uid: int)
    ensures EntriesOf(msgs + [m], uid) == EntriesOf(msgs, uid) + (if m.userId == uid then multiset{Entry(m)} else multiset{})
    ensures CountFor(msgs + [m], uid) == CountFor(msgs, uid) + (if m.userId == uid then 1 else 0)
  {
    assert (msgs + [m])[..|msgs|] == msgs;
  }

  /** A message stored after every other row of its user that shares no
      timestamp with them is the first row of any history window taken right
      after it: the window's first row has the greatest `created_at`, and no
      other row of the user reaches it. With a tie in `created_at`, SQL
      promises no such thing. */
  lemma AppendThenHistory(msgs: seq<Message>, m: Message, limit: int, rows: seq<Row>)
    requires forall e :: e in EntriesOf(msgs, m.userId) ==> CreatedAt(e) < m.createdAt
    requires limit != 0
    requires IsHistoryWindow(msgs + [m], m.userId, limit, rows)
    ensures rows != [] && rows[0] == Entry(m)
  {
    EntriesAppend(msgs, m, m.userId);
    var all := EntriesOf(msgs + [m], m.userId);
    assert Entry(m) in all;
    assert rows != [];
  }
}
