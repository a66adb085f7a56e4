# Telegram AI chat-bot: data layer and reply pipeline, in Dafny

This project models the core of a Telegram chat-bot written in Python with
aiogram, aiosqlite and g4f. The bot keeps one SQLite connection. The file
behind it holds two tables, `users` and `messages`. For each incoming text the
bot resolves the sender to a user row and stores the text as a `user` turn. It
then reads the ten newest rows of that user, oldest first, and asks a text
generation backend for a reply, trying three models in a fixed order. It
stores the reply as an `assistant` turn and sends it. The `/start`, `/clear`
and `/stats` commands act on the same tables.

The model has one module per core source file, plus three modules that
match no single source file:

- `common.dfy` (`Common`): `Option`, `Result` and `Outcome`. A `Result.Err`
  or an `Outcome.Fail` stands for a Python exception.
- `text.dfy` (`Text`): `str.strip()`, `str.lower()` and the `in` substring
  test, with their properties.
- `schema.dfy` (`Schema`): the rows, the file contents (`Tables`) and the
  table invariants. These come from the schema in `connection.py`. It gives
  the meaning of every SQL statement (`Apply`) and query (`Select`) that
  `repository.py` sends, and the lemmas about them.
- `connection.dfy` (`Connection`): class `Database`. It holds the
  connected flag, the file contents, the connection's `last_insert_rowid()`
  and a clock. A store is constructed over whatever the file already holds.
  Its methods are `connect`, `disconnect`, `_init_schema` and the guarded
  `execute`, `fetch_one` and `fetch_all`. `execute` takes an oracle saying
  whether the engine hits an I/O fault.
- `repository.dfy` (`Repository`): `UserRepository` and `MessageRepository`
  as methods over a `Database`, with specification functions and lemmas.
- `ai_service.dfy` (`AIService`): prompt assembly, the model-fallback loop,
  `generate_response` and `test_connection`. The g4f library is an oracle
  `Backend`: for a model name and a prompt it yields a string, an exception
  or a value that is not a string.
- `router.dfy` (`Router`): `message_handler`, `start_handler`,
  `clear_handler` and `stats_handler`. Each is a method giving the effect on
  the store and the reply sent. The transport is an oracle `Deliver` that says
  whether `message.answer` succeeds, plus a flag for the typing action. For
  `message_handler`, the oracle also says how many seconds generation takes
  and whether the assistant turn's INSERT hits an engine fault.

`created_at` is `CURRENT_TIMESTAMP`, which has one-second resolution. It is
modelled as the `Database.clock` tick, which never decreases. So
`ORDER BY created_at DESC` fixes only a non-strict order. The history
contract (`Schema.IsHistoryWindow`) states what SQL promises and nothing more:

- as many rows as the limit allows;
- every row is one of the user's;
- `created_at` never increases down the list;
- no row left out is newer than a row returned.

The engine function returns ties latest-inserted first. That is one order
SQLite may produce, and no contract above the `Database` layer relies on it.
So the contracts promise that the user turn just stored heads the history
window only when no earlier row of that user shares its timestamp
(`Schema.AppendThenHistory`). With a tie, SQL may put another row first. With
ten tied rows it may leave the new turn out of the window altogether.

Some behaviours of the code are easy to misread; the model keeps them as written:

- The prompt holds the current text twice. It is the newest history row
  whenever no earlier row shares its timestamp (`Router.CurrentMessageTwice`),
  and `generate_response` appends it again. A first message "Hi" from a new user
  gives the prompt system, "Hi", "Hi" (`Router.FirstMessagePrompt`), not
  system plus "Hi".
- `content` is only NOT NULL, not non-empty. A reply that strips to "" is
  stored as it is.
- The foreign key on `messages.user_id` is not enforced. The source never
  turns on `PRAGMA foreign_keys`, and SQLite leaves foreign keys off by
  default. So `Apply` does not check `user_id`.
- The typing action is outside the `try`. If it fails, the handler raises
  with the user turn already stored and sends no reply. The failure is not
  absorbed.
- History order is non-increasing in `created_at`, not strictly ordered.

## Model

| member | source | states |
|---|---|---|
| Schema.ParseRole | app/database/connection.py:56 | a role is accepted exactly when it is `'user'` or `'assistant'`, and is stored under that name |
| Schema.Apply | app/database/repository.py:18-110 | every statement that completes keeps both tables once created and never lowers an AUTOINCREMENT counter. Only user statements change `users`, and only message statements change `messages`. An INSERT reports one row and a rowid |
| Schema.Select | app/database/repository.py:18-100 | a query fails only on a missing table; `COUNT(*)` gives exactly one row; the history query gives at most `limit` rows for a non-negative limit |
| Schema.LimitKeepsOrder | app/database/repository.py:89 | `LIMIT n` returns only rows of its input, in their order, so a non-increasing list stays non-increasing |
| Schema.RenameKeepsKeys | app/database/repository.py:52-58 | the username UPDATE keeps every id, telegram id and join time, and who can be found by telegram id |
| Schema.FindUser | app/database/repository.py:20-23 | the lookup by telegram id finds a row exactly when one exists, and the row found carries that telegram id |
| Schema.SelectByTelegramId | app/database/connection.py:49 | because `telegram_id` is UNIQUE, the SELECT by telegram id returns exactly the one matching row, or none |
| Schema.CountTelegramIdAtMostOne | app/database/repository.py:52-58 | the UPDATE by telegram id reports rowcount 1 when the user exists and 0 otherwise |
| Schema.SelectById | app/database/repository.py:45-50 | the SELECT by id returns at most one row, that row carries the id asked for, and it returns one exactly when such a user exists |
| Schema.SelectLastInserted | app/database/repository.py:72-77 | right after an insert, `WHERE id = last_insert_rowid()` selects exactly the new row |
| Schema.NoMessageWithId | app/database/repository.py:72-77 | no row is selected by an id that no message carries |
| Schema.CountIsEntries | app/database/repository.py:94-100 | `COUNT(*)` equals the number of the user's rows, and is positive exactly when the user has a message |
| Schema.WithoutKeepsOthers | app/database/repository.py:102-110 | the DELETE keeps only rows of other users, all taken from the table, and removes as many rows as the user had |
| Schema.WithoutEmptiesUser | app/database/repository.py:102-110 | after the DELETE the user has no message left |
| Schema.WithoutSparesOthers | app/database/repository.py:102-110 | the DELETE leaves every other user's rows untouched |
| Schema.WithoutWellFormed | app/database/connection.py:53-60 | a DELETE keeps the message table's id and timestamp order |
| Schema.AppendNewerWellFormed | app/database/connection.py:53-60 | a row within the counter and the clock, newer than every row of a well-formed table, can be appended with the table staying well formed |
| Schema.AppendUserWellFormed | app/database/connection.py:47-52 | a user inserted with a new telegram id and the next AUTOINCREMENT id keeps ids increasing and telegram ids unique |
| Schema.RenameWellFormed | app/database/repository.py:52-58 | the username UPDATE keeps every id and telegram id, so the user table stays well formed |
| Schema.AppendMessageWellFormed | app/database/connection.py:53-60 | a message inserted with the next id and the current timestamp keeps ids increasing and timestamps non-decreasing |
| Schema.ApplyPreservesWellFormed | app/database/connection.py:47-60 | every statement that completes keeps ids increasing and within the AUTOINCREMENT counter, `telegram_id` unique, and timestamps non-decreasing and not in the future |
| Schema.AutoIncrement | app/database/connection.py:48-54 | an inserted user or message gets an id above every earlier id in its table, appended as the last row and reported as the rowid |
| Schema.InsertUserConstraint | app/database/connection.py:47-52 | inserting a user succeeds exactly when the table exists and the telegram id is new; afterwards exactly one row has it |
| Schema.InsertMessageConstraint | app/database/connection.py:53-60 | inserting a message succeeds exactly when the table exists, the content is not null and the role is `'user'` or `'assistant'`; it fails with NOT NULL or CHECK otherwise |
| Schema.NewestFirstEntries | app/database/repository.py:81-92 | the rows the history query orders are exactly the user's `role, content, created_at` rows |
| Schema.NewestFirstBounded | app/database/repository.py:81-92 | no history row is newer than the newest message in the table |
| Schema.NewestFirstSorted | app/database/repository.py:88 | over a table whose timestamps never decrease, the history rows come in non-increasing `created_at` |
| Schema.PrefixIsNewest | app/database/repository.py:88-89 | cutting a newest-first list after `k` rows leaves out nothing newer than what it keeps |
| Schema.HistoryQueryIsWindow | app/database/repository.py:81-92 | the history query's rows meet every promise of `ORDER BY created_at DESC LIMIT n` |
| Schema.EntriesAppend | app/database/repository.py:66-79 | storing a message adds exactly that row to its user's rows and adds one to the count |
| Schema.AppendThenHistory | app/database/repository.py:66-92 | a message stored after all of its user's rows, with no timestamp tie, is the first row of any history window read right after |
| Connection.Database.constructor | app/database/connection.py:17-20 | a new store is not connected, has no connection object, and sits over the file as it already is, with rows from earlier runs kept |
| Connection.Database.IsConnected | app/database/connection.py:111-113 | `is_connected` reports a connection only while a connection object is held |
| Connection.Database.Connect | app/database/connection.py:22-35 | a failed open changes nothing and raises. Otherwise the flag is set before schema creation and stays set when it raises, and the tables created are those before the failing statement |
| Connection.Database.InitSchema | app/database/connection.py:44-68 | the four schema statements run in order and stop at the first that raises; existing tables and rows are kept |
| Connection.Database.Disconnect | app/database/connection.py:37-42 | afterwards the store is not connected; nothing else changes, and a store that was not connected is left alone |
| Connection.Database.Execute | app/database/connection.py:71-89 | refused with "not connected" while disconnected. An engine I/O fault raises and is rolled back. A statement that completes is committed; one that raises is rolled back, leaving file and `last_insert_rowid` as they were |
| Connection.Database.FetchOne | app/database/connection.py:97-102 | refused while disconnected; otherwise the first selected row or None |
| Connection.Database.FetchAll | app/database/connection.py:104-109 | refused while disconnected; otherwise every selected row |
| Repository.GetOrCreateEffect | app/database/repository.py:18-43 | on a known telegram id nothing changes and that row is returned. On a new one exactly one row is appended, with that telegram id, that username and a fresh id. Either way exactly one row carries the id and the messages are untouched |
| Repository.GetOrCreateIdempotent | app/database/repository.py:18-43 | two calls in a row with the same telegram id return the same row, and the second changes nothing |
| Repository.LookupFindsUser | app/database/repository.py:20-41 | the first lookup selects the existing row, or nothing. For a new telegram id the INSERT completes with the next id, and the read-back selects exactly the new row |
| Repository.ClearEffect | app/database/repository.py:102-110 | after clearing, the user has no messages and every other user keeps theirs; the call reports true exactly when a row was removed |
| Repository.EntriesAreHistoryRows | app/database/repository.py:84-85 | each history row carries only role, content and created_at |
| Repository.GetOrCreateUser | app/database/repository.py:18-43 | the lookup, the insert and the read-back together give exactly the get-or-create effect; storage errors are raised and change nothing |
| Repository.GetUserById | app/database/repository.py:45-50 | returns the row with that id exactly when one exists, otherwise None |
| Repository.UpdateUsername | app/database/repository.py:52-58 | returns true exactly when the telegram id exists; only that row's username changes |
| Repository.CreateMessage | app/database/repository.py:66-79 | appends exactly one row with the given user, role and content and the next id, and returns that row. An engine fault or a bad role raises and changes nothing |
| Repository.GetConversationHistory | app/database/repository.py:81-92 | the rows form a history window of the user for the limit, each only role, content and created_at |
| Repository.GetMessageCount | app/database/repository.py:94-100 | returns the number of the user's messages, 0 when there are none |
| Repository.ClearConversation | app/database/repository.py:102-110 | removes exactly the user's messages and returns true exactly when there was one |
| Text.StripLeft | app/handlers/router.py:132 | the result is a suffix of the input, what was dropped is whitespace, and it does not start with whitespace |
| Text.StripRight | app/services/ai_service.py:77 | the result is a prefix of the input, what was dropped is whitespace, and it does not end with whitespace |
| Text.Strip | app/services/ai_service.py:77 | the result is no longer than the input and neither starts nor ends with whitespace |
| Text.StripIsTrim | app/services/ai_service.py:77 | the stripped text is a contiguous piece of the input framed by whitespace only |
| Text.StripEmptyIffAllSpace | app/handlers/router.py:132 | `s.strip() == ""` exactly when `s` is all whitespace |
| Text.StripIdempotent | app/services/ai_service.py:77 | stripping twice is stripping once |
| Text.LowerChar | app/services/ai_service.py:143 | each ASCII capital becomes the matching lower-case letter, and every other character stays |
| Text.LowerIdempotent | app/services/ai_service.py:143 | lower-casing twice is lower-casing once, and leaves no ASCII capital |
| Text.ContainsAt | app/services/ai_service.py:143 | an occurrence at any position makes `sub in s` true |
| Text.ContainsHasPosition | app/services/ai_service.py:143 | `sub in s` gives a position where `sub` occurs |
| AIService.BuildPrompt | app/services/ai_service.py:58-71 | the prompt is the system message, then the history in the given order, then the new user message; its length is the history's plus 2 |
| AIService.Fallback | app/services/ai_service.py:100-132 | a success is a non-empty string some model answered. A failure carries either the exception it started with or one some model raised |
| AIService.FirstUsable | app/services/ai_service.py:103-122 | the first model whose call yields a non-empty string; every model before it yields none |
| AIService.LastRaisedCons | app/services/ai_service.py:124-125 | the last exception seen over a list is the one seen after its first model, carried forward |
| AIService.FallbackMeaning | app/services/ai_service.py:100-132 | the fallback returns the first usable model's text; when none is usable it raises with the exception of the last model that raised |
| AIService.CallModels | app/services/ai_service.py:90-132 | models are tried in list order, each at most once, stopping at the first non-empty string. Empty or non-string results and exceptions move on, and the failure carries the last exception |
| AIService.GenerateResponse | app/services/ai_service.py:41-88 | never raises: returns a model's text stripped, or the fixed apology |
| AIService.ResponseOutcome | app/services/ai_service.py:74-88 | the reply is the apology exactly when no model gives a usable answer, otherwise the first usable answer stripped |
| AIService.SecondModelAnswers | app/services/ai_service.py:103-122 | when the first model fails and the second answers, the reply is the second answer stripped |
| AIService.TestConnection | app/services/ai_service.py:134-147 | true exactly when the fallback succeeds and the lower-cased answer contains "hello"; false on failure |
| AIService.TestConnectionAcceptsHello | app/services/ai_service.py:142-143 | a first usable answer saying "Hello" in any letter case passes the self-test |
| Router.IsBlank | app/handlers/router.py:132-133 | a present text is ignored exactly when it is all whitespace, and a missing text always is |
| Router.ChronologicalAt | app/handlers/router.py:155-160 | the oldest-first history has the same length, and its `k`-th entry is the role and content of the `k`-th row from the end |
| Router.FormatHistory | app/handlers/router.py:155-160 | the loop over `reversed(history)` yields role/content pairs, oldest first |
| Router.CurrentMessageTwice | app/handlers/router.py:144-173 | when the newest history row is the text being answered, the prompt ends with that text twice |
| Router.FirstMessagePrompt | app/handlers/router.py:138-173 | for a user with no earlier messages, the window holds just the new text, and the prompt is the system message and the text twice |
| Router.MessageHandler | app/handlers/router.py:124-191 | blank text changes nothing and sends nothing; any other text is answered as `AnswerText` states |
| Router.AnswerText | app/handlers/router.py:138-191 | get or create the user, store the user turn and read a ten-row window. That window starts with the new turn when no earlier row of the user shares its timestamp. A storage error raises before generation, and a typing failure raises with the user turn kept. Then the reply is stored, stamped `elapsed` seconds later, and sent. If the store faults, the user turn stays and the processing-error text is sent |
| Router.RecordTurn | app/handlers/router.py:138-152 | the user is got or created, exactly one user turn is appended, and the rows read form a history window headed by that turn unless a timestamp ties |
| Router.Respond | app/handlers/router.py:154-191 | after generation the clock has moved `elapsed` seconds. If the INSERT completes, the reply is stored as the assistant turn at that time and sent. If it faults, the file is left as it was and the processing-error text is sent; if sending fails, the processing-error text is sent. If that fails too, the handler raises |
| Router.StartHandler | app/handlers/router.py:38-59 | the user is got or created, then the welcome is sent |
| Router.ClearHandler | app/handlers/router.py:79-97 | the user is got or created and that user's messages deleted; the confirmation is sent whether or not anything was deleted |
| Router.StatsHandler | app/handlers/router.py:99-122 | the user is got or created and the reply reports that user's id, username, join time and message count |

## Left out

- The g4f call itself (app/services/ai_service.py:107-118) is foreign network code. Its thread pool and its 30-second timeout are concurrency. It is the `Backend` oracle, and a timeout is one of its exceptions. `max_tokens` and `temperature` are not passed to it.
- `cleanup` only shuts down the thread pool. The `AIResponse` dataclass and the `model` field are never used by the core.
- `executemany` is not used by any core operation.
- The SQLite engine's internals are not modelled. Tables are sequences, and timestamps are a whole-second tick advanced by `Database.Tick`. Integers are unbounded, where SQLite's are 64-bit.
- Engine faults (disk I/O, locking) are modelled in three places: opening the file, creating the schema (`Database.Connect`), and the INSERT of `create_message` (`Database.Execute`'s `ioOk`). The assistant turn's INSERT, inside the handler's `try`, takes the oracle from `Router.MessageHandler`.
- Router.RecordTurn: the user turn's INSERT is run fault-free. A fault there would only raise out of the handler, as a missing table already does.
- Repository.GetOrCreateUser: its INSERT is run fault-free. A fault would only raise out of every handler that calls it, as the modelled errors do.
- Repository.UpdateUsername: its UPDATE is run fault-free, for the same reason.
- Repository.ClearConversation: its DELETE is run fault-free, for the same reason.
- SELECT queries (`Database.FetchOne`, `Database.FetchAll`) fail only on a missing connection or table. An engine fault there would raise the same way.
- The clock advances only while the reply is generated (`elapsed` in `Router.MessageHandler`). Time passing between the other statements of one handler is not modelled; it would only widen the timestamp gaps.
- Concurrent requests on the one shared connection are not modelled, because the model is sequential. That covers the check-then-insert race in `get_or_create_user` and the read-back through `last_insert_rowid()`. So the read-back after an insert is proved to find the new row, and the source's `None` return there cannot occur.
- The Telegram transport is an oracle: `send_chat_action`, `message.answer`, router registration and the FSM states. `error_handler` only logs, and `help_handler` only sends a constant text. The HTML wording of the welcome, clear, stats and error texts is not modelled; each is an `Outgoing` constructor.
- `Text.IsSpace` covers the whitespace of `str.strip()` in the Latin-1 range only, and `Text.Lower` lower-cases ASCII letters only. Python also handles the rest of Unicode.
- Logging is left out, because it has no effect on state or replies.
- app/main.py, run.py, app/utils/logger.py and config.py are process lifecycle, log formatting and environment loading. None of them is part of this model.
