# Presence bot: reconciliation core

A model, in Dafny, of the core of a Telegram bot that watches whether a lab is
open or closed. Every polling interval the bot fetches the lab state from an
HTTP endpoint and compares it with the newest row of its `logs` table. There are
three outcomes:

- If the table has no row (or the lookup fails), it writes a genesis row and
  sends nothing.
- If the status is unchanged, it does nothing.
- If the status changed, it appends one row and works out who opened or closed
  the lab, from the head of an activity history and within a freshness window.
  Then it renders a message and sends it to every subscriber in the `users`
  table. A failed send does not stop the others.

Separately, any message sent to the bot subscribes the sender's chat. The bot
replies with a welcome text and, when known, the current status.

The two SQLite tables are in-memory sequences in the class `Store.Database`.
The class keeps AUTOINCREMENT ids (a per-table sequence that only grows) and
the UNIQUE constraint on the chat id. Network results, storage failures, the
clock, timestamp parsing and send outcomes are inputs.

Modules:

- `LabState` (lab_state.dfy): the state endpoint's result and the id-to-status mapping.
- `Attribution` (attribution.dfy): the freshness-window rule, with `num_seconds` truncation.
- `Messages` (messages.dfy): the notification templates, the welcome text and the status line.
- `Store` (store.dfy): the `logs` and `users` tables as a class with methods.
- `Notifier` (notifier.dfy): the per-subscriber send loop.
- `Reconciler` (reconciler.dfy): one polling cycle. The pure function
  `CycleSpec` specifies the cycle. The method `Reconcile` performs it on a
  `Database` and is proved equal to `CycleSpec`. Lemmas state the properties of
  one cycle and of a run of cycles.
- `Subscription` (subscription.dfy): the message handler and the conversion of
  chat ids.

Three behaviours of the source are easy to misread. The model follows the
code as written:

- Any failure of the last-status lookup takes the genesis path. This includes
  read errors, not only an empty table (src/main.rs:221-227).
- A failed insert on the change path panics (`unwrap`), so nothing is sent. It
  does not go on to notify (src/main.rs:197-199).
- A duplicate subscription and a storage error give the same `Err(())`, so
  both get the "già iscritto" reply (src/main.rs:24-27).

Every panic in the polling step (a malformed state or history body, a failed
insert, a failed user listing) is an `Aborted` outcome. It carries the state
the tables had at that point. A malformed history body comes after the change
row has been written, so that change is never notified.

## Model

| member | source | states |
|---|---|---|
| `LabState.CurrentStatus` | src/main.rs:180-186 | the lab is open exactly when the payload id is 1; a failed request leaves it closed |
| `Attribution.WholeSeconds` | src/main.rs:167-170 | the age in whole seconds is the tick difference truncated toward zero, bounded on both sides |
| `Attribution.Attribute` | src/main.rs:153-174 | an actor exists iff the history is non-empty, the head's time plus offset parses and its age in whole seconds is strictly below the window; the actor is the head's user |
| `Attribution.SecondsBelowWindow` | src/main.rs:168-171 | for a window of at least one second (or a past record), whole seconds below the window is the same as exact age below the window |
| `Attribution.AttributionWindowStrict` | src/main.rs:166-174 | with a positive window, attribution holds iff the exact age is strictly below the window; an age of exactly the window gives None |
| `Attribution.AttributionMonotoneInWindow` | src/main.rs:171-174 | an actor attributed within a window is attributed within any wider window |
| `Attribution.AttributionReadsOnlyHead` | src/main.rs:153-157 | records after the first never change the attribution |
| `Messages.Render` | src/main.rs:102-127 | a closed text starts with the "chiuso" template and an open text with the "aperto" template |
| `Messages.RenderStatusRoundTrip` | src/main.rs:106-126 | the status can be read back from every rendered notification |
| `Messages.ClosedIgnoresActor` | src/main.rs:106-111 | the closed notification does not depend on the actor |
| `Messages.OpenActorRecoverable` | src/main.rs:112-125 | the open text with an actor is the plain open text plus " da " and the name, so the name can be read back |
| `Messages.OpenActorInjective` | src/main.rs:112-119 | two open notifications with the same time and date are equal only if they name the same actor |
| `Messages.WelcomeText` | src/main.rs:273-276 | the welcome always starts with the greeting and carries the "già iscritto" suffix exactly when the insert failed |
| `Messages.StatusLine` | src/main.rs:265-270 | the status line says "aperto" for an open status and "chiuso" for a closed one |
| `Store.Database.constructor` | src/main.rs:82-93 | the database starts with both tables empty and both sequences at zero |
| `Store.Database.LastStatus` | src/main.rs:45-56 | fails iff the read fails or the table is empty; otherwise returns the row with the greatest id, which is the last row |
| `Store.Database.InsertStatus` | src/main.rs:57-75 | on success appends exactly one row with the status and a fresh id larger than every existing id; on failure changes nothing |
| `Store.Database.SelectAllUsers` | src/main.rs:30-34 | returns the whole `users` table unless the read fails |
| `Store.Database.InsertUser` | src/main.rs:15-29 | succeeds iff the write works and the chat id is not yet present, adding exactly one row; otherwise the table is unchanged; no chat id ever occurs twice |
| `Notifier.FanOut` | src/main.rs:207-219 | one attempt per subscriber, in list order, all with the same message, each to the subscriber's own chat |
| `Notifier.FanOutDelivered` | src/main.rs:207-219 | successful sends equal the number of subscribers minus the number whose send fails |
| `Notifier.Notify` | src/main.rs:207-219 | the send loop attempts exactly the fan-out and goes on past failures |
| `Reconciler.ActorOf` | src/main.rs:143-157 | a failed history request gives no actor; any actor is the user of the first record of a deserialised body (the rule is `Attribute`) |
| `Reconciler.CycleSpec` | src/main.rs:177-229 | one cycle only appends: the log grows by at most one row, earlier rows unchanged, and the sequence advances with it; an appended row carries the fetched status and the next id; seeding and notifying always append one row; an unchanged cycle leaves the log as it was |
| `Reconciler.Decide` | src/main.rs:188-196 | no last status gives seed, an equal status gives keep, a different one gives change |
| `Reconciler.Reconcile` | src/main.rs:177-229 | the cycle leaves the log table and returns the outcome that `CycleSpec` gives; it never changes the users |
| `Reconciler.NoWriteWhenEqual` | src/main.rs:190-196 | when the newest row has the fetched status, nothing is written and nothing is sent |
| `Reconciler.OneAppendOnChange` | src/main.rs:197-199 | on a change exactly one row is appended, with the new status and the next id; earlier rows are unchanged |
| `Reconciler.GenesisIsSilent` | src/main.rs:221-227 | when the lookup fails (an empty table or a read error) the cycle never notifies; if the insert works it appends one row with the fetched status |
| `Reconciler.NotifiedOnlyOnChange` | src/main.rs:188-219 | a notification is sent only after a change was recorded; it names the new status and goes to every subscriber in order; successes equal subscribers minus failures |
| `Reconciler.TransportFailureClosesLab` | src/main.rs:180-186 | a failed fetch reads as closed, so an open log produces a closing notification without an actor |
| `Reconciler.FaultFreeCycle` | src/main.rs:188-199 | a cycle without faults appends the reading iff it differs from the last status, and notifies iff a last status existed and differed |
| `Reconciler.Run` | src/main.rs:245-251 | cycles run in input order; the run ends early exactly at an aborted cycle (a panic ends the polling task) and never otherwise; without faults every input runs |
| `Reconciler.RunLog` | src/main.rs:177-229 | over cycles without faults the log grows by exactly one row per change (plus the seed), and the number of notifying cycles equals the number of changes |
| `Reconciler.RunNotifiesAtChanges` | src/main.rs:188-219 | over cycles without faults, cycle k notifies exactly when its reading differs from the status before it |
| `Reconciler.PersistedAlternates` | src/main.rs:192-199 | over cycles without faults, the rows written by successive cycles never repeat the preceding status |
| `Reconciler.RunFromEmpty` | src/main.rs:221-227 | from an empty log, over cycles without faults, the run leaves one row plus one per flip of the readings, sends as many notifications as flips, and cycle k notifies exactly when reading k differs from reading k - 1 |
| `Reconciler.RunFromEmptyAlternates` | src/main.rs:192-199 | from an empty log, over cycles without faults, no two adjacent rows carry the same status |
| `Reconciler.ReadFaultBreaksAlternation` | src/main.rs:221-227 | without that assumption it fails: two cycles reading open, the second with a failed lookup, both seed and leave two adjacent open rows |
| `Subscription.Replies` | src/main.rs:263-283 | the first reply is the welcome for the insert result; a second reply, the status line of the newest row, comes iff a last row exists and the welcome was sent |
| `Subscription.DuplicateLooksLikeFailure` | src/main.rs:24-27 | a rejected insert, for a duplicate or an I/O error, always gets the "già iscritto" welcome |
| `Subscription.HandleMessage` | src/main.rs:260-284 | subscribes the chat with its full id and the next user id unless it is already present or the write fails, in which case the table and its sequence are unchanged; the log is untouched; the replies are `Replies` of the outcome |
| `Subscription.AsI32` | src/main.rs:261 | the Rust cast keeps the low 32 bits: the result is in i32 range and congruent to the input modulo 2^32 |
| `Subscription.StoredChatIdAsWritten` | src/main.rs:261 | the handler's conversion keeps every chat id that fits in 32 bits |
| `Subscription.TruncatedChatIdMisroutes` | src/main.rs:261 | chat 7000000000 is stored as -1589934592 and collides with chat 2705032704 |
| `Subscription.TruncationConsequences` | src/main.rs:204-219 | once 7000000000 is stored truncated, chat 2705032704 is already present and gets the "già iscritto" welcome, and sends for that row go to chat -1589934592 |

## Left out

- HTTP requests and JSON decoding (src/main.rs:143-151, 180-183). Their results are the inputs `StateFetch` and `HistoryFetch`.
- RFC 3339 (section 5.6) parsing of history times (src/main.rs:158-161). This is a library call, passed in as a function from the string (time with the offset appended) to ticks.
- Reading `CHRONO_TIME_OFFSET`, its "+02:00" default, `HISTORY_INTERVAL`, `POLLING_INTERVAL` and the endpoint URLs. The offset and the window are in `Config`.
- Wall-clock reads and strftime formatting. One `Clock` value stands for them. The source reads the clock separately for the stored timestamp, the history age and the rendered time, so those readings may differ slightly.
- SQLite itself: the connection pool, schema creation and SQL text (src/main.rs:78-100). The tables are sequences that keep the AUTOINCREMENT and UNIQUE semantics.
- The 32-bit width of the `id` columns of `Log` and `User`. Ids are unbounded.
- The order of `SELECT * FROM users`. SQL does not fix it; the model returns the rows in insertion order.
- The Telegram transport, `Bot::from_env`, the tokio interval loop, `tokio::spawn` and `main` (src/main.rs:231-258). This is concurrency and external I/O. A send is an outcome function of the chat id. A panic in the polling task ends that task for good; `Reconciler.Run` stops at the aborted cycle, and the bot process itself (which keeps answering messages) is not modelled.
- Logging.

## Findings

| source | as written | input that shows it | evidently intended | confidence | as-written member | corrected member |
|---|---|---|---|---|---|---|
| src/main.rs:261 | `msg.chat.id.0 as i32` truncates the 64-bit Telegram chat id before storing it; src/main.rs:210 widens the stored value back for sending | chat 7000000000 is stored as -1589934592, so notifications go to another chat; chat 2705032704 maps to the same value and is told it is already subscribed (`Subscription.TruncatedChatIdMisroutes`, `Subscription.TruncationConsequences`) | store the chat id unchanged, as a 64-bit integer | high; not executed | `Subscription.StoredChatIdAsWritten` | `Subscription.HandleMessage` |
