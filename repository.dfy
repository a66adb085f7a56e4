/** `UserRepository` and `MessageRepository`: each method sends its SQL
    through the shared `Database` and shapes the rows it gets back. The
    specification functions below say what each call leaves in the file. */
module Repository {
  import opened Common
  import opened Schema
  import opened Connection

  // ---------------------------------------------------------------------------
  // Specification

  /** What `get_or_create_user` returns and leaves in a file whose users
      table exists: the row with that telegram id if there is one, otherwise
      a new row appended with the next id. */
  function GetOrCreate(t: Tables, now: nat, tid: int, username: Option<string>): (Tables, User) {
    match FindUser(t.users, tid)
    case Some(u) => (t, u)
    case None =>
      var u := User(t.userSeq + 1, tid, username, now);
      (t.(users := t.users + [u], userSeq := u.id), u)
  }

  /** The row `create_message` inserts next. */
  function NextMessage(t: Tables, now: nat, uid: int, role: Role, content: string): Message {
    Message(t.messageSeq + 1, uid, role, content, now)
  }

  /** The file with message `m` appended and its id recorded as the last one handed out. */
  function WithMessage(t: Tables, m: Message): Tables {
    t.(messages := t.messages + [m], messageSeq := m.id)
  }

  /** On an existing telegram id nothing changes and that user's row is
      returned; on a new one exactly one row, carrying the given telegram id
      and username and an id above every earlier one, is appended. Either way
      the file stays well formed, holds exactly one row for the telegram id,
      and the messages are untouched. */
  lemma GetOrCreateEffect(t: Tables, now: nat, tid: int, username: Option<string>)
    requires WellFormed(t, now) && t.usersTable
    ensures var (after, u) := GetOrCreate(t, now, tid, username);
      && WellFormed(after, now)
      && u in after.users && u.telegramId == tid
      && CountTelegramId(after.users, tid) == 1
      && after.messages == t.messages && after.messagesTable == t.messagesTable && after.usersTable
      && (HasTelegramId(t.users, tid) ==> after == t)
      && (!HasTelegramId(t.users, tid) ==>
            && after.users == t.users + [u] && u.username == username && u.createdAt == now
            && forall i :: 0 <= i < |t.users| ==> t.users[i].id < u.id)
  {
    var (after, u) := GetOrCreate(t, now, tid, username);
    if !HasTelegramId(t.users, tid) {
      InsertUserConstraint(t, now, tid, username);
      ApplyPreservesWellFormed(t, now, InsertUser(tid, username));
      assert after == Apply(t, now, InsertUser(tid, username)).value.after;
    } else {
      CountTelegramIdAtMostOne(t.users, t.userSeq, tid);
    }
  }

  /** Two `get_or_create_user` calls in a row with the same telegram id
      return the same row, and the second changes nothing. */
  lemma GetOrCreateIdempotent(t: Tables, now: nat, later: nat, tid: int, first: Option<string>, second: Option<string>)
    requires WellFormed(t, now) && t.usersTable
    ensures var (t1, u1) := GetOrCreate(t, now, tid, first);
      var (t2, u2) := GetOrCreate(t1, later, tid, second);
      t2 == t1 && u2 == u1 && u2.id == u1.id
  {
    var (t1, u1) := GetOrCreate(t, now, tid, first);
    GetOrCreateEffect(t, now, tid, first);
    SelectByTelegramId(t1.users, t1.userSeq, tid);
    if !HasTelegramId(t.users, tid) {
      assert t1.users[|t1.users| - 1] == u1;
    }
  }

  /** The lookup by telegram id selects the row `get_or_create_user`
      returns when one exists and nothing otherwise; in that case the INSERT
      completes, and the lookup after it selects the new row. */
  lemma LookupFindsUser(t: Tables, now: nat, tid: int, username: Option<string>)
    requires WellFormed(t, now) && t.usersTable
    ensures HasTelegramId(t.users, tid) ==>
      UsersWithTelegramId(t.users, tid) == [UserRow(GetOrCreate(t, now, tid, username).1)]
    ensures !HasTelegramId(t.users, tid) ==> UsersWithTelegramId(t.users, tid) == []
    ensures !HasTelegramId(t.users, tid) ==>
      var (t1, u) := GetOrCreate(t, now, tid, username);
      && Apply(t, now, InsertUser(tid, username)) == Ok(Change(t1, 1, Some(u.id)))
      && UsersWithTelegramId(t1.users, tid) == [UserRow(u)]
  {
    SelectByTelegramId(t.users, t.userSeq, tid);
    if !HasTelegramId(t.users, tid) {
      var u := User(t.userSeq + 1, tid, username, now);
      var users := t.users + [u];
      assert GetOrCreate(t, now, tid, username) == (t.(users := users, userSeq := u.id), u);
      AppendUserWellFormed(t.users, t.userSeq, u);
      SelectByTelegramId(users, u.id, tid);
      assert FindUser(users, tid) == Some(u);
    }
  }

  /** After `clear_conversation` the user has no messages, every other user
      keeps exactly the messages they had, and the call reports true exactly
      when it removed a row. */
  lemma ClearEffect(msgs: seq<Message>, uid: int)
    ensures CountFor(Without(msgs, uid), uid) == 0
    ensures forall other :: other != uid ==> EntriesOf(Without(msgs, uid), other) == EntriesOf(msgs, other)
    ensures (CountFor(msgs, uid) > 0) <==> |Without(msgs, uid)| < |msgs|
  {
    WithoutEmptiesUser(msgs, uid);
    WithoutKeepsOthers(msgs, uid);
    forall other | other != uid
      ensures EntriesOf(Without(msgs, uid), other) == EntriesOf(msgs, other)
    {
      WithoutSparesOthers(msgs, uid, other);
    }
  }

  /** Every row of a history window is a `role, content, created_at` row. */
  lemma {:induction false} EntriesAreHistoryRows(msgs: seq<Message>, uid: int)
    ensures forall e :: e in EntriesOf(msgs, uid) ==> e.HistoryRow?
    decreases |msgs|
  {
    if msgs != [] {
      EntriesAreHistoryRows(msgs[..|msgs| - 1], uid);
    }
  }

  // ---------------------------------------------------------------------------
  // UserRepository

  /** `get_or_create_user`: look the telegram id up, insert when absent, and
      read the row back. */
  method GetOrCreateUser(db: Database, telegramId: int, username: Option<string>) returns (r: Result<User, DbError>)
    requires db.Valid()
    modifies db`file, db`lastRowid
    ensures db.Valid()
    ensures !db.connected ==> r == Err(NotConnected) && db.file == old(db.file)
    ensures db.connected && !old(db.file.usersTable) ==> r == Err(NoSuchTable("users")) && db.file == old(db.file)
    ensures db.connected && old(db.file.usersTable) ==>
      var (after, u) := GetOrCreate(old(db.file), db.clock, telegramId, username);
      r == Ok(u) && db.file == after
    ensures HasTelegramId(old(db.file.users), telegramId) ==> db.lastRowid == old(db.lastRowid)
    ensures r.Ok? && !HasTelegramId(old(db.file.users), telegramId) ==> db.lastRowid == r.value.id
  {
    ghost var t0 := db.file;
    if t0.usersTable {
      LookupFindsUser(t0, db.clock, telegramId, username);
    }
    var found := db.FetchOne(UserByTelegramId(telegramId));
    match found {
      case Err(e) => return Err(e);
      case Ok(Some(row)) => return Ok(row.user);
      case Ok(None) =>
    }
    var inserted := db.Execute(InsertUser(telegramId, username), true);
    match inserted {
      case Err(e) => return Err(e);
      case Ok(_) =>
    }
    var created := db.FetchOne(UserByTelegramId(telegramId));
    // the row just inserted is found, so the read-back neither raises nor returns None
    r := Ok(created.value.value.user);
  }

  /** `get_user_by_id`: the row with that internal id, or None. */
  method GetUserById(db: Database, id: int) returns (r: Result<Option<User>, DbError>)
    requires db.Valid()
    ensures !db.connected ==> r == Err(NotConnected)
    ensures db.connected && !db.file.usersTable ==> r == Err(NoSuchTable("users"))
    ensures db.connected && db.file.usersTable ==>
      r.Ok? && (r.value.Some? <==> exists i :: 0 <= i < |db.file.users| && db.file.users[i].id == id)
    ensures r.Ok? && r.value.Some? ==> r.value.value in db.file.users && r.value.value.id == id
  {
    SelectById(db.file.users, db.file.userSeq, id);
    var found := db.FetchOne(UserById(id));
    match found
    case Err(e) => r := Err(e);
    case Ok(None) => r := Ok(None);
    case Ok(Some(row)) =>
      assert row in UsersWithId(db.file.users, id);
      r := Ok(Some(row.user));
  }

  /** `update_username`: true exactly when a row with that telegram id
      exists; only that row's username changes. */
  method UpdateUsername(db: Database, telegramId: int, username: string) returns (r: Result<bool, DbError>)
    requires db.Valid()
    modifies db`file, db`lastRowid
    ensures db.Valid() && db.lastRowid == old(db.lastRowid)
    ensures !db.connected ==> r == Err(NotConnected) && db.file == old(db.file)
    ensures db.connected && !old(db.file.usersTable) ==> r == Err(NoSuchTable("users")) && db.file == old(db.file)
    ensures db.connected && old(db.file.usersTable) ==>
      && r == Ok(HasTelegramId(old(db.file.users), telegramId))
      && db.file == old(db.file).(users := Rename(old(db.file.users), telegramId, username))
  {
    CountTelegramIdAtMostOne(db.file.users, db.file.userSeq, telegramId);
    var updated := db.Execute(Statement.UpdateUsername(username, telegramId), true);
    match updated
    case Err(e) => r := Err(e);
    case Ok(rowcount) => r := Ok(rowcount > 0);
  }

  // ---------------------------------------------------------------------------
  // MessageRepository

  /** `create_message`: insert one row and read it back through
      `last_insert_rowid()`. `ioOk` says whether the engine gets through the
      INSERT without an I/O fault. */
  method CreateMessage(db: Database, userId: int, role: string, content: string, ioOk: bool)
    returns (r: Result<Message, DbError>)
    requires db.Valid()
    modifies db`file, db`lastRowid
    ensures db.Valid()
    ensures !db.connected ==> r == Err(NotConnected) && db.file == old(db.file)
    ensures db.connected && !ioOk ==> r == Err(EngineFault) && db.file == old(db.file)
    ensures db.connected && ioOk && !old(db.file.messagesTable) ==>
      r == Err(NoSuchTable("messages")) && db.file == old(db.file)
    ensures db.connected && ioOk && old(db.file.messagesTable) && ParseRole(role).None? ==>
      r == Err(CheckViolation) && db.file == old(db.file)
    ensures db.connected && ioOk && old(db.file.messagesTable) && ParseRole(role).Some? ==>
      var m := NextMessage(old(db.file), db.clock, userId, ParseRole(role).value, content);
      r == Ok(m) && db.file == WithMessage(old(db.file), m) && db.lastRowid == m.id
    ensures r.Err? ==> db.lastRowid == old(db.lastRowid)
  {
    var inserted := db.Execute(InsertMessage(userId, role, Some(content)), ioOk);
    match inserted {
      case Err(e) => return Err(e);
      case Ok(_) =>
    }
    SelectLastInserted(old(db.file.messages), db.file.messages[|db.file.messages| - 1]);
    var created := db.FetchOne(LastInsertedMessage);
    // the row just inserted is found, so the read-back neither raises nor returns None
    r := Ok(created.value.value.message);
  }

  /** `get_conversation_history`: at most `limit` rows of the user (all of
      them for a negative limit), each only `role, content, created_at`, in
      non-increasing `created_at`, none older than a row left out. */
  method GetConversationHistory(db: Database, userId: int, limit: int) returns (r: Result<seq<Row>, DbError>)
    requires db.Valid()
    ensures !db.connected ==> r == Err(NotConnected)
    ensures db.connected && !db.file.messagesTable ==> r == Err(NoSuchTable("messages"))
    ensures db.connected && db.file.messagesTable ==>
      r.Ok? && IsHistoryWindow(db.file.messages, userId, limit, r.value)
    ensures r.Ok? ==> forall i :: 0 <= i < |r.value| ==> r.value[i].HistoryRow?
  {
    HistoryQueryIsWindow(db.file.messages, db.file.messageSeq, db.clock, userId, limit);
    EntriesAreHistoryRows(db.file.messages, userId);
    r := db.FetchAll(History(userId, limit));
    if r.Ok? {
      forall i | 0 <= i < |r.value|
        ensures r.value[i].HistoryRow?
      {
        assert r.value[i] in multiset(r.value);
      }
    }
  }

  /** `get_message_count`: the number of the user's messages. */
  method GetMessageCount(db: Database, userId: int) returns (r: Result<int, DbError>)
    requires db.Valid()
    ensures !db.connected ==> r == Err(NotConnected)
    ensures db.connected && !db.file.messagesTable ==> r == Err(NoSuchTable("messages"))
    ensures db.connected && db.file.messagesTable ==> r == Ok(CountFor(db.file.messages, userId))
  {
    var found := db.FetchOne(MessageCount(userId));
    match found
    case Err(e) => r := Err(e);
    case Ok(None) => r := Ok(0);
    case Ok(Some(row)) => r := Ok(row.count);
  }

  /** `clear_conversation`: delete every message of the user; true exactly
      when at least one row was removed. */
  method ClearConversation(db: Database, userId: int) returns (r: Result<bool, DbError>)
    requires db.Valid()
    modifies db`file, db`lastRowid
    ensures db.Valid() && db.lastRowid == old(db.lastRowid)
    ensures !db.connected ==> r == Err(NotConnected) && db.file == old(db.file)
    ensures db.connected && !old(db.file.messagesTable) ==> r == Err(NoSuchTable("messages")) && db.file == old(db.file)
    ensures db.connected && old(db.file.messagesTable) ==>
      && r == Ok(CountFor(old(db.file.messages), userId) > 0)
      && db.file == old(db.file).(messages := Without(old(db.file.messages), userId))
  {
    var deleted := db.Execute(DeleteMessages(userId), true);
    match deleted
    case Err(e) => r := Err(e);
    case Ok(rowcount) => r := Ok(rowcount > 0);
  }
}
