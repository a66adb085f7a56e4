/** The bot's command and message handlers, reduced to their effects on the
    store and the reply they send. The Telegram transport is an oracle
    `Deliver` saying whether `message.answer` succeeds. */
module Router {
  import opened Common
  import opened Text
  import opened Schema
  import opened Connection
  import opened Repository
  import opened AIService

  /** The history window `message_handler` reads. */
  const HistoryLimit: int := 10

  /** The replies the handlers send; their HTML wording is not modelled. */
  datatype Outgoing =
    | Welcome
    | Cleared
    | Stats(userId: int, username: Option<string>, joined: nat, total: int)
    | Answer(text: string)
    | ProcessingError

  /** Why a handler raised: a storage error, or the transport failing. */
  datatype Fault = StorageFault(error: DbError) | TransportFault

  /** A handler either returns, having sent at most one reply, or raises. */
  datatype HandlerResult = Handled(reply: Option<Outgoing>) | Failed(fault: Fault)

  /** The transport: whether sending a given reply succeeds. */
  type Deliver = Outgoing -> bool

  /** `message.answer(reply)`: the reply is sent, or the call raises. */
  function Send(reply: Outgoing, deliver: Deliver): HandlerResult {
    if deliver(reply) then Handled(Some(reply)) else Failed(TransportFault)
  }

  // ---------------------------------------------------------------------------
  // The message pipeline, as functions

  /** `not message.text or message.text.strip() == ""`: a present text is
      ignored exactly when it is all whitespace. */
  predicate IsBlank(text: Option<string>): (r: bool)
    ensures r <==> text.None? || AllSpace(text.value)
  {
    if text.None? then true
    else
      StripEmptyIffAllSpace(text.value);
      Strip(text.value) == ""
  }

  /** A history row as the generation service receives it: role and content only. */
  function ChatOf(row: Row): ChatMessage
    requires row.HistoryRow?
  {
    ChatMessage(RoleName(row.role), row.content)
  }

  /** The newest-first rows turned oldest-first. */
  function Chronological(rows: seq<Row>): seq<ChatMessage>
    requires forall i :: 0 <= i < |rows| ==> rows[i].HistoryRow?
  {
    if rows == [] then [] else Chronological(rows[1..]) + [ChatOf(rows[0])]
  }

  lemma {:induction false} ChronologicalAt(rows: seq<Row>, k: nat)
    requires forall i :: 0 <= i < |rows| ==> rows[i].HistoryRow?
    requires k < |rows|
    ensures |Chronological(rows)| == |rows|
    ensures Chronological(rows)[k] == ChatOf(rows[|rows| - 1 - k])
  {
    if |rows| > 1 {
      ChronologicalAt(rows[1..], if k < |rows| - 1 then k else 0);
    }
  }

  /** The loop that builds `formatted_history` from `reversed(history)`. */
  method FormatHistory(history: seq<Row>) returns (formatted: seq<ChatMessage>)
    requires forall i :: 0 <= i < |history| ==> history[i].HistoryRow?
    ensures |formatted| == |history|
    ensures forall k :: 0 <= k < |history| ==> formatted[k] == ChatOf(history[|history| - 1 - k])
    ensures formatted == Chronological(history)
  {
    formatted := [];
    var n := |history|;
    var i := 0;
    while i < n
      invariant 0 <= i <= n
      invariant |formatted| == i
      invariant forall k :: 0 <= k < i ==> formatted[k] == ChatOf(history[n - 1 - k])
    {
      var msg := history[n - 1 - i];
      formatted := formatted + [ChatMessage(RoleName(msg.role), msg.content)];
      i := i + 1;
    }
    if n > 0 {
      ChronologicalAt(history, 0);
    }
    forall k | 0 <= k < n
      ensures formatted[k] == Chronological(history)[k]
    {
      ChronologicalAt(history, k);
    }
  }

  /** When the newest history row is the message being answered, the prompt
      carries that message twice: once as the last history entry and once
      as the new user turn. */
  lemma CurrentMessageTwice(history: seq<Row>, text: string, at: nat)
    requires forall i :: 0 <= i < |history| ==> history[i].HistoryRow?
    requires history != [] && history[0] == HistoryRow(UserRole, text, at)
    ensures var p := BuildPrompt(text, Some(Chronological(history)));
      |p| == |history| + 2 && p[|p| - 2] == ChatMessage("user", text) && p[|p| - 1] == ChatMessage("user", text)
  {
    ChronologicalAt(history, |history| - 1);
    var p := BuildPrompt(text, Some(Chronological(history)));
    assert p[|p| - 2] == p[1..|p| - 1][|history| - 1];
  }

  /** First contact: for a user with no earlier messages, the window read
      right after storing the text holds just that text, and the prompt is
      the system message followed by the text twice. */
  lemma FirstMessagePrompt(msgs: seq<Message>, m: Message, history: seq<Row>)
    requires EntriesOf(msgs, m.userId) == multiset{} && m.role == UserRole
    requires IsHistoryWindow(msgs + [m], m.userId, HistoryLimit, history)
    ensures history == [Entry(m)]
    ensures BuildPrompt(m.content, Some(Chronological(history)))
         == [ChatMessage("system", SystemPrompt), ChatMessage("user", m.content), ChatMessage("user", m.content)]
  {
    EntriesAppend(msgs, m, m.userId);
    assert multiset(history) <= multiset{Entry(m)};
    assert history[0] in multiset(history);
  }

  // ---------------------------------------------------------------------------
  // Handlers

  /** `message_handler`: ignore blank text; otherwise answer it. */
  method MessageHandler(db: Database, telegramId: int, username: Option<string>, text: Option<string>,
                        backend: Backend, typingOk: bool, elapsed: nat, storeOk: bool, deliver: Deliver)
    returns (result: HandlerResult, ghost history: seq<Row>)
    requires db.Valid()
    modifies db`file, db`lastRowid, db`clock
    ensures db.Valid()
    ensures IsBlank(text) ==>
      && result == Handled(None) && db.file == old(db.file)
      && db.lastRowid == old(db.lastRowid) && db.clock == old(db.clock)
    ensures !IsBlank(text) ==> AnswersText(db, old(db.file), old(db.clock), telegramId, username, text.value,
                                        backend, typingOk, elapsed, storeOk, deliver, result, history)
  {
    history := [];
    if text.None? || Strip(text.value) == "" {
      return Handled(None), history;
    }
    result, history := AnswerText(db, telegramId, username, text.value, backend, typingOk, elapsed, storeOk, deliver);
  }

  /** What answering a non-blank `text` does, starting from file `t0` at
      time `now`: get or create the user, store the text as a user turn,
      read the last ten rows (`history`), announce typing (outside the
      `try`), generate a reply, store it as an assistant turn and send it.
      A failure to store or send the reply sends the processing-error text
      instead; the stored user turn stays. Generation takes `elapsed`
      seconds, so the assistant turn is stamped that much later; `storeOk`
      says whether the engine gets through the assistant turn's INSERT. */
  ghost predicate AnswersText(db: Database, t0: Tables, now: nat, telegramId: int, username: Option<string>,
                           text: string, backend: Backend, typingOk: bool, elapsed: nat, storeOk: bool,
                           deliver: Deliver, result: HandlerResult, history: seq<Row>)
    reads db
  {
    && (!db.connected ==>
          result == Failed(StorageFault(NotConnected)) && db.file == t0 && db.clock == now)
    && (db.connected && !t0.usersTable ==>
          result == Failed(StorageFault(NoSuchTable("users"))) && db.file == t0 && db.clock == now)
    && (db.connected && t0.usersTable && !t0.messagesTable ==>
          && result == Failed(StorageFault(NoSuchTable("messages")))
          && db.file == GetOrCreate(t0, now, telegramId, username).0
          && db.clock == now)
    && (db.connected && t0.usersTable && t0.messagesTable ==>
          var (t1, user) := GetOrCreate(t0, now, telegramId, username);
          var turn := NextMessage(t1, now, user.id, UserRole, text);
          var t2 := WithMessage(t1, turn);
          && IsHistoryWindow(t2.messages, user.id, HistoryLimit, history)
          && (forall i :: 0 <= i < |history| ==> history[i].HistoryRow?)
          && ((forall e :: e in EntriesOf(t1.messages, user.id) ==> CreatedAt(e) < now) ==>
                history != [] && history[0] == Entry(turn))
          && (!typingOk ==> result == Failed(TransportFault) && db.file == t2 && db.clock == now)
          && (typingOk ==>
                var reply := ResponseFor(text, Some(Chronological(history)), backend);
                && db.clock == now + elapsed
                && (storeOk ==>
                      && db.file == WithMessage(t2, NextMessage(t2, db.clock, user.id, AssistantRole, reply))
                      && result == (if deliver(Answer(reply)) then Handled(Some(Answer(reply))) else Send(ProcessingError, deliver)))
                && (!storeOk ==> db.file == t2 && result == Send(ProcessingError, deliver))))
  }

  /** The non-blank branch of `message_handler`. */
  method AnswerText(db: Database, telegramId: int, username: Option<string>, text: string,
                    backend: Backend, typingOk: bool, elapsed: nat, storeOk: bool, deliver: Deliver)
    returns (result: HandlerResult, ghost history: seq<Row>)
    requires db.Valid()
    modifies db`file, db`lastRowid, db`clock
    ensures db.Valid()
    ensures AnswersText(db, old(db.file), old(db.clock), telegramId, username, text,
                     backend, typingOk, elapsed, storeOk, deliver, result, history)
  {
    history := [];
    var recorded := RecordTurn(db, telegramId, username, text);
    match recorded {
      case Err(e) => return Failed(StorageFault(e)), history;
      case Ok((user, window)) =>
        history := window;
        result := Respond(db, user.id, text, window, backend, typingOk, elapsed, storeOk, deliver);
    }
  }

  /** The head of `message_handler`, before the typing action: get or create
      the user, store the text as a user turn and read the ten-row window.
      The window always meets the history contract; it starts with the new
      turn when no earlier row of the user shares its timestamp. */
  method RecordTurn(db: Database, telegramId: int, username: Option<string>, text: string)
    returns (r: Result<(User, seq<Row>), DbError>)
    requires db.Valid()
    modifies db`file, db`lastRowid
    ensures db.Valid()
    ensures !db.connected ==> r == Err(NotConnected) && db.file == old(db.file)
    ensures db.connected && !old(db.file.usersTable) ==> r == Err(NoSuchTable("users")) && db.file == old(db.file)
    ensures db.connected && old(db.file.usersTable) && !old(db.file.messagesTable) ==>
      r == Err(NoSuchTable("messages")) && db.file == GetOrCreate(old(db.file), db.clock, telegramId, username).0
    ensures db.connected && old(db.file.usersTable) && old(db.file.messagesTable) ==>
      var (t1, user) := GetOrCreate(old(db.file), db.clock, telegramId, username);
      var turn := NextMessage(t1, db.clock, user.id, UserRole, text);
      var t2 := WithMessage(t1, turn);
      && r.Ok? && r.value.0 == user && db.file == t2
      && IsHistoryWindow(t2.messages, user.id, HistoryLimit, r.value.1)
      && (forall i :: 0 <= i < |r.value.1| ==> r.value.1[i].HistoryRow?)
      && ((forall e :: e in EntriesOf(t1.messages, user.id) ==> CreatedAt(e) < db.clock) ==>
            r.value.1 != [] && r.value.1[0] == Entry(turn))
  {
    var found := GetOrCreateUser(db, telegramId, username);
    var user: User;
    match found {
      case Err(e) => return Err(e);
      case Ok(u) => user := u;
    }
    ghost var t1 := db.file;
    var saved := CreateMessage(db, user.id, "user", text, true);
    match saved {
      case Err(e) => return Err(e);
      case Ok(_) =>
    }
    var rows := GetConversationHistory(db, user.id, HistoryLimit);
    match rows {
      case Err(e) => return Err(e);
      case Ok(window) =>
        ghost var turn := NextMessage(t1, db.clock, user.id, UserRole, text);
        if forall e :: e in EntriesOf(t1.messages, user.id) ==> CreatedAt(e) < db.clock {
          AppendThenHistory(t1.messages, turn, HistoryLimit, window);
        }
        r := Ok((user, window));
    }
  }

  /** The tail of `message_handler`, once the history window is read: the
      window is turned oldest first, the typing action raises outside the
      `try`, and inside it the reply is generated, stored as an assistant
      turn and sent. A failure to store or send it sends the
      processing-error text instead. */
  method Respond(db: Database, userId: int, text: string, window: seq<Row>,
                 backend: Backend, typingOk: bool, elapsed: nat, storeOk: bool, deliver: Deliver)
    returns (result: HandlerResult)
    requires db.Valid() && db.connected && db.file.messagesTable
    requires forall i :: 0 <= i < |window| ==> window[i].HistoryRow?
    modifies db`file, db`lastRowid, db`clock
    ensures db.Valid()
    ensures !typingOk ==> result == Failed(TransportFault) && db.file == old(db.file) && db.clock == old(db.clock)
    ensures typingOk ==>
      var reply := ResponseFor(text, Some(Chronological(window)), backend);
      && db.clock == old(db.clock) + elapsed
      && (storeOk ==>
            && db.file == WithMessage(old(db.file), NextMessage(old(db.file), db.clock, userId, AssistantRole, reply))
            && result == (if deliver(Answer(reply)) then Handled(Some(Answer(reply))) else Send(ProcessingError, deliver)))
      && (!storeOk ==> db.file == old(db.file) && result == Send(ProcessingError, deliver))
  {
    var formatted := FormatHistory(window);
    if !typingOk {
      return Failed(TransportFault);
    }
    // try:
    var reply := GenerateResponse(text, Some(formatted), backend);
    db.Tick(elapsed);
    var stored := CreateMessage(db, userId, "assistant", reply, storeOk);
    match stored {
      case Ok(_) =>
        if deliver(Answer(reply)) {
          return Handled(Some(Answer(reply)));
        }
      case Err(_) =>
    }
    // except: send the processing-error text
    result := Send(ProcessingError, deliver);
  }

  /** `start_handler`: get or create the user, then send the welcome. */
  method StartHandler(db: Database, telegramId: int, username: Option<string>, deliver: Deliver)
    returns (result: HandlerResult)
    requires db.Valid()
    modifies db`file, db`lastRowid
    ensures db.Valid()
    ensures !db.connected ==> result == Failed(StorageFault(NotConnected)) && db.file == old(db.file)
    ensures db.connected && !old(db.file.usersTable) ==>
      result == Failed(StorageFault(NoSuchTable("users"))) && db.file == old(db.file)
    ensures db.connected && old(db.file.usersTable) ==>
      db.file == GetOrCreate(old(db.file), db.clock, telegramId, username).0 && result == Send(Welcome, deliver)
  {
    var found := GetOrCreateUser(db, telegramId, username);
    match found {
      case Err(e) => return Failed(StorageFault(e));
      case Ok(_) =>
    }
    result := Send(Welcome, deliver);
  }

  /** `clear_handler`: get or create the user, delete that user's messages,
      and confirm whether or not anything was deleted. */
  method ClearHandler(db: Database, telegramId: int, username: Option<string>, deliver: Deliver)
    returns (result: HandlerResult)
    requires db.Valid()
    modifies db`file, db`lastRowid
    ensures db.Valid()
    ensures !db.connected ==> result == Failed(StorageFault(NotConnected)) && db.file == old(db.file)
    ensures db.connected && !old(db.file.usersTable) ==>
      result == Failed(StorageFault(NoSuchTable("users"))) && db.file == old(db.file)
    ensures db.connected && old(db.file.usersTable) && !old(db.file.messagesTable) ==>
      && result == Failed(StorageFault(NoSuchTable("messages")))
      && db.file == GetOrCreate(old(db.file), db.clock, telegramId, username).0
    ensures db.connected && old(db.file.usersTable) && old(db.file.messagesTable) ==>
      var (t1, user) := GetOrCreate(old(db.file), db.clock, telegramId, username);
      db.file == t1.(messages := Without(t1.messages, user.id)) && result == Send(Cleared, deliver)
  {
    var found := GetOrCreateUser(db, telegramId, username);
    var user: User;
    match found {
      case Err(e) => return Failed(StorageFault(e));
      case Ok(u) => user := u;
    }
    var cleared := ClearConversation(db, user.id);
    match cleared {
      case Err(e) => return Failed(StorageFault(e));
      case Ok(_) =>
    }
    result := Send(Cleared, deliver);
  }

  /** `stats_handler`: get or create the user, count that user's messages,
      and report the user's id, username, join time and count. */
  method StatsHandler(db: Database, telegramId: int, username: Option<string>, deliver: Deliver)
    returns (result: HandlerResult)
    requires db.Valid()
    modifies db`file, db`lastRowid
    ensures db.Valid()
    ensures !db.connected ==> result == Failed(StorageFault(NotConnected)) && db.file == old(db.file)
    ensures db.connected && !old(db.file.usersTable) ==>
      result == Failed(StorageFault(NoSuchTable("users"))) && db.file == old(db.file)
    ensures db.connected && old(db.file.usersTable) && !old(db.file.messagesTable) ==>
      && result == Failed(StorageFault(NoSuchTable("messages")))
      && db.file == GetOrCreate(old(db.file), db.clock, telegramId, username).0
    ensures db.connected && old(db.file.usersTable) && old(db.file.messagesTable) ==>
      var (t1, user) := GetOrCreate(old(db.file), db.clock, telegramId, username);
      && db.file == t1
      && result == Send(Stats(user.id, user.username, user.createdAt, CountFor(t1.messages, user.id)), deliver)
  {
    var found := GetOrCreateUser(db, telegramId, username);
    var user: User;
    match found {
      case Err(e) => return Failed(StorageFault(e));
      case Ok(u) => user := u;
    }
    var count := GetMessageCount(db, user.id);
    match count {
      case Err(e) => return Failed(StorageFault(e));
      case Ok(n) => result := Send(Stats(user.id, user.username, user.createdAt, n), deliver);
    }
  }
}
