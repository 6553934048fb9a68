# Password vault backend — a Dafny model

The backend of a password manager: accounts identified by a Google identity
(`users`), and secret records (`passwords`) that belong to one user. The
records can be created, listed, rewritten and soft-deleted one at a time over
HTTP, or in bulk by a mobile client's sync batch. A sync batch addresses
records by the mobile client's own `mobile_id`.

The model is written in terms of the two tables:

- `schema.dfy` (module `Schema`) has the row types, taken from the
  `CREATE TABLE` statements in `database.js`. It also has the request payload,
  the handlers' reply type (`Ok`, `BadRequest`, `Duplicate`, `NotFound`,
  `ServerError`) and two relational primitives: `UPDATE ... WHERE` and "the
  first row of a `SELECT ... WHERE` in table order". SQL NULL and an absent
  request field are both `None`.
- `accounts.dfy` (module `Accounts`) holds the statements of `routes/auth.js`
  as functions on the `users` table. It also holds the table's guarantees: ids
  ascend, and `email` and `google_id` are UNIQUE.
- `records.dfy` (module `Records`) holds the statements of
  `routes/passwords.js` as functions on the `passwords` table. These are the
  listing with its `ORDER BY created_at DESC`, and the by-id and by-mobile-id
  UPDATEs and soft deletes.
- `sync.dfy` (module `Sync`) gives the effect of one sync item (`Step`) and of
  a run of items (`Run`).
- `vault.dfy` (module `Vault`) has the class `Database`. It holds both tables
  and their SERIAL counters as fields. Every write handler is a method on it,
  and the invariant `Valid()` holds across every handler. `Valid()` requires
  the ids to be ordered, unique email and google id, and every `user_id` to
  name an existing user (the foreign key).

Constraint failures are modelled where the code reaches them. Each of these
becomes a `ServerError` reply, or a failed item inside a sync batch:

- a NOT NULL column left NULL by a missing field;
- an INSERT whose owner does not exist;
- reading `data.title` of an item without `data`.

A SERIAL id is consumed by an INSERT that the database then refuses. It is not
consumed when the handler fails in JavaScript before sending the statement.

A `null` element in the sync array makes the `catch` block itself throw,
because it reads `passwordData.operation` of `null`. The outer handler then
answers 500, and the items before the `null` stay applied. `Database.Sync`
states exactly this.

The current time is a parameter (`now`). There is one value per handler call,
and one per sync batch.

## Model

| member | source | states |
|---|---|---|
| Schema.FirstIndex | routes/auth.js:66 | the position it returns matches the WHERE, and no earlier row does; the table's length means no row matches |
| Schema.FirstWhere | routes/auth.js:71 | `rows[0]` of a SELECT in table order: `None` exactly when no row matches, otherwise a matching row of the table |
| Schema.UpdateWhereNone | routes/passwords.js:77-82 | an UPDATE whose WHERE matches no row leaves the table unchanged |
| Schema.UpdateWhereOne | routes/passwords.js:68-75 | an UPDATE whose WHERE matches exactly one row rewrites that row and no other |
| Accounts.FindSignIn | routes/auth.js:51-61 | signin's SELECT: the position it returns holds an active row with both the email and the google id; the table's length means no active row has both |
| Accounts.NewUser | routes/auth.js:24-29 | the row signup inserts has the given id, name, picture and verified flag; it signs in with exactly the given email and google id; it is created and updated at `now` and not deleted |
| Accounts.Touch | routes/auth.js:63-67 | the `updated_at` UPDATE changes only `updated_at`, and only on rows with that id, keeping every row in place |
| Accounts.LookupByEmail | routes/auth.js:84-96 | `exists` holds exactly when an active row has that email; `user` is present exactly when `exists` holds and is such a row |
| Accounts.LookupFindsTheActiveRow | routes/auth.js:88-96 | because email is UNIQUE, the lookup returns exactly the active row holding that email |
| Accounts.FindSignInIsUnique | routes/auth.js:51-71 | because email is UNIQUE, signin reads exactly the row that signs in |
| Accounts.SignupKeepsWellFormed | routes/auth.js:11-29 | inserting a user that no row claims by email or google id keeps the ids ordered and email and google id unique |
| Accounts.TouchOneRow | routes/auth.js:64-67 | with unique ids, signin's UPDATE changes exactly the signed-in row's `updated_at` and keeps the table well formed |
| Records.Rewrite | routes/passwords.js:69-73 | an UPDATE of the content columns never changes id, owner, mobile id, creation time, passcode, category or `deleted` |
| Records.NewRow | routes/passwords.js:17-22 | the row an INSERT yields is live, owned by the given user and has the given id and mobile id; its content is the request's; its passcode is NULL, its category is the column default, and it is created and updated at `now` |
| Records.SelectLive | routes/passwords.js:44 | the WHERE of the listing keeps every live row of the owner, with its multiplicity, and nothing else |
| Records.PrependNewestFirst | routes/passwords.js:44 | a row no older than the head of a newest-first sequence can be put in front of it |
| Records.InsertNewestFirst | routes/passwords.js:44 | inserting into a newest-first sequence keeps it newest first and adds exactly that row |
| Records.SortNewestFirst | routes/passwords.js:44 | `ORDER BY created_at DESC` gives a newest-first permutation of its input |
| Records.ListForUser | routes/passwords.js:39-51 | the listing is newest first and is a permutation of the owner's rows that are not soft-deleted |
| Records.ListedIff | routes/passwords.js:43-46 | a row is listed for an owner if and only if it is stored, belongs to that owner and is not soft-deleted |
| Records.InsertedRowIsListed | routes/passwords.js:17-22 | the row create inserts appears in its owner's listing afterwards |
| Records.FindLive | routes/passwords.js:72 | the position it returns holds a live row with that id; the table's length means no live row has it |
| Records.RewriteLive | routes/passwords.js:68-75 | the direct UPDATE keeps every row in place with its id, owner, mobile id, creation time, passcode, category and `deleted` |
| Records.SoftDeleteLive | routes/passwords.js:103-109 | the direct DELETE keeps every row in place with its id, owner, mobile id, creation time, passcode and category; afterwards a row is deleted exactly when it was deleted before or has that id |
| Records.RewriteLiveUnmatched | routes/passwords.js:68-82 | when no live row has the id, the direct UPDATE leaves the table unchanged, so not found changes nothing |
| Records.SoftDeleteLiveUnmatched | routes/passwords.js:103-116 | when no live row has the id, the direct DELETE leaves the table unchanged, so not found changes nothing |
| Records.OnlyLiveRow | routes/passwords.js:72 | with unique ids, at most one row can match `id = $n AND deleted = false` |
| Records.RewriteLiveOneRow | routes/passwords.js:68-75 | the direct UPDATE rewrites the one live row with that id and no other row, keeping the table well formed |
| Records.SoftDeleteLiveOneRow | routes/passwords.js:103-109 | the direct DELETE marks the one live row with that id as deleted and stamps `updated_at`; it removes no row and changes no other row |
| Records.SoftDeleteLiveLeavesNoLiveRow | routes/passwords.js:103-116 | after a soft delete no live row with that id is left, so deleting it again is not found |
| Records.RewriteByMobile | routes/passwords.js:162-169 | a sync UPDATE rewrites the content and `updated_at` of every row with that mobile id and owner, deleted ones included; every other row is unchanged |
| Records.SoftDeleteByMobile | routes/passwords.js:174-177 | a sync DELETE sets `deleted` on exactly the rows with that mobile id and owner and changes nothing else |
| Records.FirstMobileMatch | routes/passwords.js:170 | `rows[0]` of a sync UPDATE: present exactly when some row has that mobile id and owner |
| Records.SoftDeleteByMobileHidesFromListing | routes/passwords.js:173-178 | after a sync DELETE no row with that mobile id is listed for the owner, and every such row is still stored |
| Sync.Parse | routes/passwords.js:150 | the `switch` recognises exactly the strings `CREATE`, `UPDATE` and `DELETE`, each as its own operation |
| Sync.Step | routes/passwords.js:147-183 | one item: an unrecognised operation changes nothing; a recognised one appends exactly one result for that operation and keeps the earlier results; the id sequence advances by at most one; the table keeps its length or gains one row at the end |
| Sync.Run | routes/passwords.js:146-184 | the items in order: the earlier results are kept, at most one result and one id are added per item, and no row is removed |
| Sync.FirstNull | routes/passwords.js:146-148 | the batch stops at the first `null` item; every item before it is an object |
| Sync.FirstNullAt | routes/passwords.js:181-183 | `FirstNull` is the one position that has only objects before it and a `null` or the end at it |
| Sync.RunExtend | routes/passwords.js:146 | handling one more item is one more `Step` |
| Sync.RunAppend | routes/passwords.js:146-184 | items are handled strictly in order: running `xs + ys` is running `ys` on what `xs` left, whatever failed in `xs` |
| Sync.RunReportsRecognised | routes/passwords.js:150-183 | there is exactly one result per CREATE, UPDATE or DELETE item, in item order, and none for other operation strings; earlier results are kept |
| Sync.GrowsTransitive | routes/passwords.js:146-184 | the effects a batch may have on the table compose from item to item |
| Sync.RunKeepsTable | routes/passwords.js:146-184 | a batch keeps the table well formed and removes no row; an existing row keeps its id, owner, mobile id and creation time; other users' rows are untouched; every added row belongs to the batch's existing owner and has a fresh id |
| Sync.StepKeepsTable | routes/passwords.js:150-180 | `RunKeepsTable` for one item |
| Sync.GrowsInPlace | routes/passwords.js:161-179 | an item that only rewrites rows in place stays within those effects |
| Sync.GrowsByInsert | routes/passwords.js:151-158 | an item that appends one row for a known owner with the next id stays within those effects |
| Sync.StepFailureKeepsRows | routes/passwords.js:181-183 | an item reported as failed leaves every row as it was |
| Sync.ReplayedCreateDuplicates | routes/passwords.js:151-158 | replaying a CREATE adds a second row with the same mobile id and a different id, because nothing deduplicates by mobile id |
| Sync.UnmatchedItemSucceeds | routes/passwords.js:161-179 | an UPDATE or DELETE for a mobile id no row of the owner has changes nothing and is still reported as a success; the UPDATE returns no row |
| Sync.CreateThenUpdate | routes/passwords.js:151-171 | the batch `[CREATE m, UPDATE m]` leaves exactly one new row with mobile id `m`, that is the CREATE's row rewritten with the UPDATE's content and time; both items succeed |
| Vault.OwnersExistGrow | database.js:71 | inserting a user keeps every `user_id` reference valid |
| Vault.OwnersExistRenew | database.js:71 | stamping a user's `updated_at` keeps every `user_id` reference valid |
| Vault.TouchKeepsValid | routes/auth.js:64-67 | signin's UPDATE is a one-row change that keeps the users table and the foreign key valid |
| Vault.OwnersExistAfterStep | database.js:71 | a sync item keeps every `user_id` reference valid |
| Vault.Database.constructor | database.js:45-83 | both tables start empty, and both SERIAL counters start at 1 |
| Vault.Database.Signup | routes/auth.js:6-43 | an email or google id that any row already holds gives a duplicate reply and no change; a missing NOT NULL field gives a server error and consumes an id; otherwise exactly the new active row is appended and returned |
| Vault.Database.Signin | routes/auth.js:46-81 | not found, with no change, exactly when no active row matches both email and google id; otherwise it returns the matching row as read, and only that row's `updated_at` changes |
| Vault.Database.CreatePassword | routes/passwords.js:6-36 | a missing or falsy `user_id` or `title` gives a bad request and no change; an unknown user gives a server error and consumes an id; otherwise exactly the new live row is appended and returned |
| Vault.Database.UpdatePassword | routes/passwords.js:63-96 | not found when no live row has the id; a missing title on a match gives a server error; otherwise only that row's content and `updated_at` change, and the rewritten row is returned |
| Vault.Database.DeletePassword | routes/passwords.js:99-130 | not found when no live row has the id; otherwise only that row becomes deleted with a new `updated_at`; no row is removed, and afterwards no live row has that id |
| Vault.Database.Sync | routes/passwords.js:133-198 | a falsy `user_id` or a non-array gives a bad request and no change; otherwise the table ends as `Run` of the items before the first `null`, and the reply is a server error if there was a `null`, else the results |
| Vault.Database.RunItems | routes/passwords.js:146-184 | the loop leaves the table, the counter and the results exactly as `Run` of the items up to the first `null`, and reports whether it stopped at one |
| Vault.Database.ApplyItem | routes/passwords.js:147-183 | one pass of the `switch` changes the table, the counter and the results exactly as `Step` |

## Left out

- HTTP framing is not modelled. This covers status codes, JSON bodies and
  messages, the `success` flags, and the Express app and CORS setup in
  `server.js`. Replies are the `Reply` datatype.
- Request coercion is not modelled. `:id`, `:userId` and a body `user_id` are
  integers here. A string that PostgreSQL would coerce, or reject with a 500,
  is not distinguished. `passwords` that is not an array is `None`. A sync item
  that is neither `null` nor an object is not modelled.
- Column limits are not modelled: the VARCHAR lengths, and the int4 range of
  SERIAL and `mobile_id`. Ids are unbounded natural numbers.
- `CURRENT_TIMESTAMP` is the parameter `now`. It takes one value per handler
  call, and one per sync batch (PostgreSQL fixes it per transaction, and each
  statement is its own transaction).
- Ties in `ORDER BY created_at DESC` are left in an unspecified order by the
  database. The model picks one order and states only the ordering and the
  permutation.
- The row chosen as `rows[0]` is the first matching row in table order. The
  database gives no order there.
- Concurrent requests and the connection pool are not modelled. Errors from
  the connection itself, and the `console` logging, are not modelled either.
- The migrations and diagnostics of `database.js` are not modelled, nor are
  `database-alternative.js`, `check-neon-connection.js` and
  `test-connection.js`. The `users.deleted_at` column is kept in the row type,
  but no modelled handler writes it. Account deletion and reactivation, and
  `ON DELETE CASCADE`, are not part of this model, because no route deletes a
  user.
- A sync item without `data`, or an UPDATE item that sets a NULL title on a
  matching row, is a failed item here. The error message text is reduced to
  the `ItemError` kind.
