# Message store service — a Dafny model

This project models the storage/service layer of a small messaging backend.
Users register with a unique, non-empty username. They send text messages to
each other and read their inbox, either in full or only the messages that are
"new". A message is new when its timestamp is strictly later than the user's
`last_seen` watermark. Every inbox read moves that watermark to the clock
reading taken just before the query. Messages can be deleted one at a time or
in bulk, always scoped to the recipient.

The store is an immutable `Database.State`: the Users table as a
`map<string, User>` keyed by username, and the Messages table as a
`seq<Message>` in insertion order. Each of the six operations is a pure
function from a state to a `Reply`, which holds a `Result` and the next state.
A `Result` is either the value or one of the four typed errors of
`Errors.StoreError`. The service's exceptions become these errors, so every
failure path is a value, and a failing call leaves the state unchanged.

Modules:

- `Errors` (errors.dfy): `Option`, `Result`, the error taxonomy and the text
  each error carries.
- `Models` (models.dfy): the `User` and `Message` records, and the default
  factories that stamp a record with the clock and a generated id.
- `Inbox` (inbox.dfy): the query machinery. `Filter` plays the WHERE clause.
  `SortByTime`, a stable insertion sort, plays ORDER BY timestamp. The module
  also holds their lemmas.
- `Database` (database.dfy): the state, its invariant `Valid`, the user lookup
  and the six operations.
- `Laws` (laws.dfy): properties that relate operations to each other, such as
  send then delete, or single delete against bulk delete.
- `Watermark` (watermark.dfy): the `last_seen` behaviour over several calls.
- `Scenario` (scenario.dfy): the alice/bob walk-through of the application's
  tests (tests/test_app.py:80-131), replayed on the model.

Environment inputs are parameters:

- The wall clock `datetime.now(UTC)` becomes a `now: Time` (a `nat`) argument
  of every operation that reads it.
- `uuid4().hex` becomes the `id` argument of `CreateMessage`.

The operations do not require a monotone clock. They sort explicitly, as the
query does. Lemmas that depend on the clock state that dependence as
hypotheses. `Clocked(st, t)` says no stored message is later than `t`, and
`Chronological` says messages are in timestamp order. Id freshness is not a
precondition of `CreateMessage`. It appears only where a property depends on
it: the clause saying a send preserves the store invariant.

Ordering of equal timestamps: the query orders by timestamp only and says
nothing about ties. This model breaks ties by insertion order (`Inbox.SortIsStable`).

Two modelling choices follow the code:

- Registration takes a whole `User` record, stored as given. The
  "`last_seen` = registration time" default comes from the record's factory
  (`Models.NewUser`), not from the store.
- The three "not found" failures are one exception class that differs only in
  its message. They are modelled as `UserNotFound(party)`, where the party is
  `Recipient`, `Sender` or `InboxOwner`.

## Model

| member | source | states |
|---|---|---|
| `Errors.DetailIsInjective` | messages/database.py:55-60 | Two failures carry the same text exactly when they are the same failure. This holds for the recipient and sender failures too, which share one exception class. |
| `Database.EmptyStoreIsValid` | messages/database.py:33-34 | The store whose tables were just created satisfies the invariant. Every operation keeps the invariant, so every store reached from it does too, provided each send gets a fresh id. |
| `Database.FindUser` | messages/database.py:48-51 | When usernames key the rows, the lookup finds a row exactly when some user row has that username. The row it returns is that user's row. |
| `Database.CreateUser` | messages/database.py:39-46 | An empty username fails with UsernameCannotBeEmpty, and this check comes before uniqueness. A taken username fails with UsernameAlreadyExists. It succeeds exactly when the username is non-empty and not taken. On failure the store is unchanged. On success exactly one user row is added, holding the given record. Other users and all messages are untouched, and the invariant is kept. |
| `Database.CreateMessage` | messages/database.py:53-63 | A missing recipient fails with UserNotFound(Recipient) even if the sender is also missing. Only with the recipient present does a missing sender fail with UserNotFound(Sender). On failure nothing is added. On success exactly one message is appended and returned, with the given id, content, sender and recipient and timestamp `now`. Users are unchanged. With a fresh id the invariant is kept. |
| `Database.GetMessagesForUser` | messages/database.py:65-78 | An unknown user fails with UserNotFound(InboxOwner) and the store is unchanged. Otherwise the result holds each message addressed to the user exactly as often as the table does, and nothing else. It is in non-decreasing timestamp order. Only that user's `lastSeen` changes, set to `now`. |
| `Database.GetNewMessagesForUser` | messages/database.py:80-94 | Same error behaviour as the full listing. Otherwise the result holds exactly the user's messages whose timestamp is strictly greater than the `lastSeen` read at the start of the call, in timestamp order. Only that user's `lastSeen` changes, set to `now`. |
| `Database.FindMessage` | messages/database.py:101 | Finds a position exactly when some message has both the given id and the given recipient. The position it returns holds such a message. |
| `Database.DeleteMessage` | messages/database.py:96-105 | An unknown user fails with UserNotFound(InboxOwner). Otherwise, if no message matches both the id and this recipient, it fails with MessageDoesNotExist. It succeeds exactly when the user exists and owns a message with that id. On failure the store is unchanged. On success one matching row is cut out and everything else stays in place. Users are unchanged and the invariant is kept. |
| `Database.DeleteMessages` | messages/database.py:107-115 | An unknown user fails with UserNotFound(InboxOwner). Otherwise it succeeds. Every message addressed to the user whose id is listed is gone. Every other message keeps its multiplicity. Users are unchanged and the invariant is kept. |
| `Inbox.FilterCounts` | messages/database.py:71-73 | Row selection keeps each row that satisfies the predicate as often as it occurs, and drops every other row. |
| `Inbox.SortByTime` | messages/database.py:73 | Ordering by timestamp returns a permutation of its input. |
| `Inbox.SortIsChronological` | messages/database.py:73 | The ordered result is in non-decreasing timestamp order. |
| `Inbox.SortIsStable` | messages/database.py:89 | Messages with equal timestamps keep their insertion order. The query leaves this open, and this model chooses it. |
| `Inbox.SortKeepsChronological` | messages/database.py:73 | Messages already in timestamp order come back unchanged. |
| `Laws.RegisterThenFind` | messages/models.py:6-9 | A user registered through the default factory can be looked up afterwards. Its `lastSeen` equals the clock reading at registration. |
| `Laws.RegisterTwiceFails` | messages/database.py:42-44 | Registering a taken username again fails with UsernameAlreadyExists and leaves the store as it was. |
| `Laws.SendThenDeleteRestores` | messages/database.py:96-105 | When the recipient deletes a message it was just sent, the store is restored exactly. This holds for any store, because the lookup finds the newest matching row first. The reused-id case is a path of the model only: in the service a reused id fails at the send's commit (messages/database.py:62), which the model leaves out (see "Storage-engine faults" under "## Left out"). |
| `Laws.SendAppendsToInbox` | messages/database.py:61-62 | A sent message joins its recipient's inbox rows after every row already there. |
| `Laws.SendLeavesOtherInboxes` | messages/database.py:72 | A send changes no other user's inbox listing. |
| `Laws.DeleteOneIsBulkOfOne` | messages/database.py:107-115 | In a valid store, a successful single delete leaves the same store as a bulk delete of a one-id list. |
| `Laws.DeleteRemovesExactlyOne` | messages/database.py:101-104 | In a valid store, a successful single delete removes exactly one row: the message with that id and recipient. Every other row is kept. |
| `Laws.BulkDeleteRemovesTargeted` | messages/database.py:112-115 | For a known user, the rows a bulk delete keeps, together with the user's rows whose id is listed, make up the old Messages table exactly, counted with multiplicity. |
| `Laws.BulkDeleteIgnoresUnmatched` | messages/database.py:112 | Adding to the id list an id that matches nothing in the user's inbox does not change the bulk delete. |
| `Laws.BulkDeleteOfNothing` | messages/database.py:112-115 | A bulk delete for a known user whose ids all miss succeeds and leaves the store as it was. |
| `Watermark.RepeatedNewIsEmpty` | messages/database.py:85-90 | If no stored message is later than the first call's clock reading, a second "new messages" call right after the first returns nothing. |
| `Watermark.NewAfterListingIsEmpty` | messages/database.py:70-74 | Under the same condition, a "new messages" call right after a full listing returns nothing. |
| `Watermark.NewAfterSendIsExactlyIt` | messages/database.py:85-90 | After a "new messages" call, send one message stamped later than that call's clock reading. The next "new messages" call then returns exactly that message. |
| `Watermark.SameTickSendIsNotNew` | messages/database.py:88 | The comparison is strict. A message stamped with the same clock reading that the preceding "new messages" call stored as the watermark is not returned by the next such call. |
| `Watermark.SendKeepsChronological` | messages/models.py:16 | When the clock does not go back, sending keeps the Messages table in timestamp order. |
| `Watermark.InboxInSendingOrder` | messages/database.py:71-73 | When the table is in timestamp order, the full listing returns the inbox in sending order, ties included. |
| `Scenario.GreetedStore` | tests/test_app.py:80-84 | After registering alice and bob and sending two greetings, both greetings are stored in sending order and bob's watermark is still the registration time. |
| `Scenario.ListingIsInSendingOrder` | tests/test_app.py:86-91 | bob's full listing returns "hej hej" and then "trevlig att träffas". |
| `Scenario.FirstNewCallReturnsBoth` | tests/test_app.py:124-127 | bob's first "new messages" call returns both greetings. |
| `Scenario.ThenNoneThenTheThird` | tests/test_app.py:111-131 | A repeat call returns nothing. After "vi ses" is sent, the next call returns just that message. |

## Left out

- Engine construction, the singleton, schema create and drop, and sessions,
  commits and refreshes (messages/database.py:18-37, 117-120). Each operation
  is modelled as one atomic step, so concurrency and isolation are not modelled.
- Storage-engine faults. This includes a primary-key clash if a generated id
  is ever reused: the model has no error for it. A reused id makes the
  model's send break the invariant `Valid`, so `CreateMessage` promises the
  invariant only for a fresh id.
- A `last_seen` of `None`: `Models.User.lastSeen` is always a `Time`. A
  caller-supplied `last_seen` is modelled: `Database.CreateUser` stores
  whatever `Time` the given record holds, and only `Models.NewUser` ties it
  to the clock.
- Time zones and sub-second resolution. Clock readings are abstract `nat`s.
- The composite index (messages/models.py:19-21). It affects performance only.
- The HTTP layer (messages/api/routes.py). It maps errors to status codes and
  renders an empty "new" list as a notice; that is presentation.
- Application wiring (messages/__init__.py, messages/config.py, run.py).
- Database.DeleteMessages: its contract gives the surviving rows and their
  multiplicities, but not their relative order. The body keeps that order,
  and a table has no order outside ORDER BY.
- Database.GetMessagesForUser: its contract gives contents and timestamp
  order. The order among equal timestamps is stated separately by
  `Inbox.SortIsStable`, because the source leaves it open.
