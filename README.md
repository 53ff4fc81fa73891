# slackbox conversation watermark store, in Dafny

A model of the part of slackbox that remembers which direct-message
conversations still need reading, with proofs about it.

- **Conversation registry.** The `conversations` table is a map from conversation id to row. `UpdateConversation` is an upsert. A new id is inserted. An existing row takes the incoming `display_name` and `latest_msg_ts` only when the incoming timestamp is strictly greater. `conversation_type` keeps its first value.
- **Acknowledgement ledger.** The `acknowledgements` table is a set of (conversation id, watermark) pairs. Acknowledging adds a pair. Un-acknowledging removes exactly that pair.
- **Unacknowledged view.** `GetUnackedConversations` returns every registry conversation whose latest message is non-empty and either has no watermark or is past the largest watermark recorded for it. Each row carries that largest watermark, or `''` when there is none. Rows are ordered by latest message descending, then id ascending.
- **Schema guard.** Opening the store inserts the singleton version row (version 1) when it is absent. It refuses a stored version above `SupportedDBVersion = 1`. Otherwise it creates the tables if they do not exist, so opening is idempotent.
- **Paging cursor.** `RlContext` in main.go pages the view two items at a time. It moves a cursor with `Next` and `NextPage` and records the positions acknowledged during the session.

Every comparison the SQL makes is SQLite's TEXT comparison under the BINARY collation. This covers the upsert guard, `max()`, the `where` filter and `order by`. `TextOrder.Less` models it as lexicographic order, in which a proper prefix sorts first and the empty string sorts below every other string. It compares characters, where SQLite compares UTF-8 bytes. The two orders agree on valid Unicode text, because UTF-8 preserves code-point order.

Files:
- `text_order.dfy`: the text order and `max()`.
- `store.dfy`: db.go.
- `store_properties.dfy`: lemmas relating the store's operations.
- `paging.dfy`: `RlContext`.
- `wrappers.dfy`: `Option`.

The state the Go code updates in place is modelled as classes:
- `Store.Database` is the SQLite file.
- `Store.SlackBoxDB` is the handle that wraps it.
- `Paging.RlContext` is the cursor.

Their methods state the whole new state. The SQL statements are pure functions (`Upsert`, `LatestAck`, `IsUnread`, `UnackedView`, `WithVersionRow`), and the methods are proved against them.

Storage-engine failures of the write statements are an oracle parameter. `storageFails` makes one statement fail. `failing` lists the positions in a batch at which the engine reports an error. A failed statement changes nothing.

On conflict, `do update set` (db.go:47-49) writes only `display_name` and `latest_msg_ts`, so `conversation_type` keeps its first-inserted value; `Upsert` does the same.

## Model

| member | source | states |
|---|---|---|
| `TextOrder.Less` | db.go:50 | the BINARY TEXT `>` used by the upsert guard, the `where` clause and `order by` (db.go:177, 184): a proper prefix sorts first, and nothing sorts below its own prefix |
| `TextOrder.Max` | db.go:163 | `max()` over a non-empty set of TEXT values: the result is a member that every member is at most |
| `TextOrder.LessTotal` | db.go:50 | the text order is total: two strings are equal or one is below the other |
| `TextOrder.LessTransitive` | db.go:50 | the text order is transitive |
| `TextOrder.MaxExists` | db.go:160-168 | every non-empty set of watermarks has a greatest element |
| `Store.AcknowledgedConversation.GetBestLinkableTs` | db.go:18-24 | the link target is the watermark when there is one, otherwise the latest message; it is empty only when both are |
| `Store.Upsert` | db.go:40-50 | an unseen id is stored exactly as given; an existing row takes the new name and timestamp iff the new timestamp is strictly greater, otherwise it is unchanged; the type never changes on conflict; other rows are untouched; no stored timestamp decreases |
| `Store.UpsertAll` | db.go:68-73 | the loop of `UpdateConversations`, applying the upserts in slice order: no row is lost and the primary-key invariant is kept |
| `Store.LatestAck` | db.go:160-168 | absent iff the id has no acknowledgement; otherwise a recorded watermark of that id that is at least every other one |
| `Store.AcknowledgedThrough` | db.go:172 | `coalesce(..., '')`: `''` when the id has no acknowledgement; otherwise a recorded watermark of that id that is at least every other one |
| `Store.IsUnread` | db.go:176-182 | a never-messaged conversation is never unread; with no watermark recorded, a conversation is unread iff a message was seen |
| `Store.Precedes` | db.go:183-185 | a row precedes only rows with an equal or earlier latest message; at an equal latest message, order is by id ascending |
| `Store.PrecedesTransitive` | db.go:183-185 | the `order by` order is transitive |
| `Store.PrecedesAsymmetric` | db.go:183-185 | no two rows precede each other |
| `Store.PrecedesTotal` | db.go:183-185 | of two rows with different ids, one precedes the other |
| `Store.SortRows` | db.go:183-185 | lists exactly the given rows, strictly in `latest_msg_ts desc, id asc` order, each id once |
| `Store.UnackedView` | db.go:156-186 | lists every unread registry conversation with its resolved watermark and nothing else, in `order by` order, each id once |
| `Store.DbError.UnsupportedVersion` | db.go:26-29 | `unsupportedVersionError`: the supported version and the version found in the file |
| `Store.CheckSupportedVersion` | db.go:214-259 | the version row 1 → 1 is inserted when absent; fails iff some stored version exceeds 1, with `UnsupportedVersion` carrying 1 and that stored version |
| `Store.Initialize` | db.go:261-295 | runs the version guard and creates the schema only when it passes; re-initializing an initialized store changes nothing |
| `Store.ConnectDB` | db.go:142-154 | returns a handle on the file iff the version guard passes, and then the schema exists; a refusal carries a version actually stored |
| `Store.WithVersionRow` | db.go:223-225 | the singleton row is present afterwards; an existing row is kept as it is; a missing one is created with version 1 |
| `Store.SlackBoxDB.UpdateConversation` | db.go:40-65 | the registry becomes `Upsert` of the old one, or is unchanged when the statement fails |
| `Store.SlackBoxDB.UpdateConversations` | db.go:67-76 | with no failure, every update is applied in slice order; on a failure the call returns that error at the first failing position, keeping the updates before it |
| `Store.SlackBoxDB.GetConversation` | db.go:78-117 | found iff the id is in the registry, returning the stored row; otherwise the zero conversation and not found, without error |
| `Store.SlackBoxDB.AckConversation` | db.go:119-131 | the ledger gains the pair and nothing else; the pair already present changes nothing |
| `Store.SlackBoxDB.UnackConversation` | db.go:133-140 | the ledger loses exactly that pair; an absent pair changes nothing |
| `Store.SlackBoxDB.GetUnackedConversations` | db.go:156-212 | returns the rows of the view query, in its order |
| `StoreProperties.UpsertIdempotent` | db.go:46-50 | applying the same update twice is the same as applying it once |
| `StoreProperties.SameTimestampKeepsFirst` | db.go:50 | a second update with the stored timestamp but another display name leaves the row unchanged |
| `StoreProperties.UpsertAllKeys` | db.go:67-76 | after a batch the registry holds the ids it held plus every id of the batch |
| `StoreProperties.UpsertAllKeepsLatest` | db.go:46-50 | after any batch each row holds the greatest timestamp it ever held or was offered |
| `StoreProperties.UpsertAllMonotone` | db.go:46-50 | no row is lost, no stored timestamp decreases and no type changes under a batch |
| `StoreProperties.ReplayCannotRegress` | db.go:46-50 | updates at t1, t2 > t1, then t1 again leave the t2 name and timestamp with the first-inserted type |
| `StoreProperties.UnreadIffPastEveryWatermark` | db.go:176-182 | unread iff there is a message and it is strictly past every watermark recorded for the id |
| `StoreProperties.AckThroughLatestHides` | db.go:119-131 | acknowledging at or past the latest message makes a conversation read |
| `StoreProperties.AckNeverSurfaces` | db.go:119-131 | adding any acknowledgement never makes a conversation unread |
| `StoreProperties.UnackNeverHides` | db.go:133-140 | removing any acknowledgement never makes a conversation read |
| `StoreProperties.ListedIff` | db.go:170-182 | an id is listed iff it is in the registry and unread; never-messaged conversations are never listed |
| `StoreProperties.ListedWatermark` | db.go:160-172 | a listed row's watermark is '' when its id has no acknowledgement, and otherwise a recorded watermark at least every other of that id |
| `StoreProperties.ListedBestLinkableTs` | db.go:18-24 | the link target of a listed row is non-empty and not past its latest message |
| `StoreProperties.SortedTail` | db.go:183-185 | in a strictly ordered result the first row occurs once |
| `StoreProperties.SortedWithSameElementsEqual` | db.go:183-185 | two strictly ordered results with the same rows are equal, so the order is total |
| `StoreProperties.UnackedViewUnique` | db.go:156-186 | any sequence listing exactly the unread conversations with their watermarks in `order by` order is the view |
| `StoreProperties.OrphanAcksIgnored` | db.go:173-175 | acknowledgements of ids outside the registry do not change the view |
| `StoreProperties.OrderingExample` | db.go:183-185 | A("a", "2.0"), B("b", "2.0"), C("c", "3.0") are listed as C, A, B |
| `StoreProperties.ScenarioFirstMessage` | db.go:176-182 | a conversation at "1.0" is listed, and acknowledging "1.0" unlists it |
| `StoreProperties.ScenarioSecondMessage` | db.go:176-182 | a message at "2.0" relists it; withdrawing the "1.0" watermark keeps it listed; acknowledging "2.0" unlists it |
| `StoreProperties.UpdateThenGet` | db_test.go:52-85 | a new conversation is not found before it is written and is found exactly as given afterwards |
| `StoreProperties.ReopenAfterVersionBump` | db_test.go:20-50 | a new file opens twice without error; after `version = version + 1` opening is refused with `UnsupportedVersion` carrying 1 and 2 |
| `Paging.RlContext.constructor` | main.go:114 | the start-up context: page 0, item 0, two per page, nothing acknowledged, and it satisfies the paging invariant |
| `Paging.RlContext.CalcPageIdxs` | main.go:214-222 | start is `curPage * pageSize`; end is the smaller of `start + pageSize` and the list length |
| `Paging.RlContext.NextPage` | main.go:201-208 | turns to the next page with the cursor on its first item iff the current page ends before the list does, otherwise changes nothing; never moves the page or, on a valid context, the cursor backwards; keeps the paging invariant |
| `Paging.RlContext.Next` | main.go:192-199 | steps within the page or turns the page; on a valid context moves the cursor exactly one item forward, or does nothing on the last item; never decreases the page; keeps the paging invariant |
| `Paging.RlContext.MarkAcked` | main.go:210-212 | the position is added to the acknowledged set; no entry is removed or changed otherwise |
| `Paging.RlContext.GetCurrentConveration` | main.go:224-226 | as written: needs the cursor inside the list; the conversation is on the current page |
| `Paging.RlContext.CurrentConversation` | main.go:224-226 | the conversation at the cursor, absent exactly when nothing is listed |
| `Paging.RlContext.DoList` | main.go:228-245 | one line per item of the current page, numbered from 1, marked when acknowledged; on a valid non-empty context exactly the cursor's line is selected |
| `Paging.RlContext.DoAck` | main.go:164-185 | records the current conversation as acknowledged through its latest message, after which it is read; marks its position; advances the cursor as `Next` does; a storage failure changes nothing |
| `Paging.ValidBounds` | main.go:229-231 | under the paging invariant `doList`'s slice and the cursor are inside the list |
| `Paging.NothingUnreadCounterexample` | main.go:109-114 | start-up with nothing unread gives a valid context whose cursor is outside the empty list |

## Left out

- SQLite and `database/sql` mechanics: `Open`, `Prepare`, `Exec`, `Query`, `Close`, row iteration. Statements are their effect on the tables.
- Read-side engine errors, from `Query`, `Scan` and `rows.Err`, are not modelled. `GetConversation` and `GetUnackedConversations` therefore return no error value. Failures of `sql.Open` and of schema creation are not modelled either.
- The duplicate-primary-key error of `GetConversation` (db.go:106-109) is not modelled. It cannot happen once the table is a map keyed by id.
- The `acknowledged_at` column (db.go:287) is left out. It is never written.
- The text of `unsupportedVersionError.Error()` (db.go:31-33) is left out. It is message formatting.
- slack.go is not part of this model. It is a network client that only produces the conversations fed to `UpdateConversations`.
- From main.go, the following are left out because they are I/O:
  - `mustHaveToken`: file stat, permissions, read.
  - `mustConnectAPI` and `mustConnectDB`: process exit.
  - `rlLoop`: readline and command dispatch.
  - `doGo`: link fetch and browser.
  - `updateAndFindUnacked`.
  - `main`.
- DoList: returns the lines it would print instead of printing them.
- DoAck: does not model the `doList` call that re-renders the page at the end of `doAck`.
- CalcPageIdxs: does not model 64-bit overflow of `curPage * pageSize`. The page size is the constant 2 and the page never passes the list, so the product stays far below the limit.
- Go `int` values are unbounded integers throughout.

## Findings

| source | as written | input that shows it | evidently intended | confidence | as-written member | corrected member |
|---|---|---|---|---|---|---|
| main.go:224-226 | `GetCurrentConveration` indexes `unackedConversations[curIdx]` unguarded; `doAck` (main.go:165) and `doGo` (main.go:154) call it whenever the command is typed | start-up with no unread conversation (`rlLoop` builds cursor 0 over an empty list, main.go:109-114), then the command `a` or `g`: index out of range | with nothing listed, acknowledging does nothing | not executed; medium | `Paging.NothingUnreadCounterexample` (with `Paging.RlContext.GetCurrentConveration`) | `Paging.RlContext.CurrentConversation` (used by `Paging.RlContext.DoAck`) |
