/**
 * Row shapes of the two tables the routes read and write (`users` and
 * `passwords`), the request payloads, the handlers' reply type, and the two
 * relational primitives every statement is built from: an `UPDATE ... WHERE`
 * and the first row of a `SELECT ... WHERE` in table order.
 *
 * A SQL NULL (or a request field that is absent, which the driver sends as
 * NULL) is `None`. Timestamps are natural numbers supplied by the caller.
 */
module Schema {

  datatype Option<+T> = None | Some(value: T)

  /** What a handler answers, without the HTTP framing. */
  datatype Reply<+T> =
    | Ok(value: T)   // 200 with `success: true`
    | BadRequest     // 400: a required request field is missing or falsy
    | Duplicate      // 400: signup found an existing account
    | NotFound       // 404
    | ServerError    // 500: the database refused a statement

  /** A row of `users`. `deletedAt` is the column added by migration; no handler writes it. */
  datatype UserRow = UserRow(
    id: nat,
    googleId: string,
    email: string,
    name: string,
    picture: Option<string>,
    verifiedEmail: Option<bool>,
    createdAt: nat,
    updatedAt: nat,
    isActive: bool,
    deletedAt: Option<nat>)

  /** A row of `passwords`. `userId` references `users.id`. */
  datatype PasswordRow = PasswordRow(
    id: nat,
    userId: int,
    title: string,
    username: Option<string>,
    password: Option<string>,
    passcode: Option<string>,
    website: Option<string>,
    notes: Option<string>,
    category: string,
    mobileId: Option<int>,
    createdAt: nat,
    updatedAt: nat,
    deleted: bool)

  /** The content fields a request carries for a secret record; absent ones are `None`. */
  datatype RecordData = RecordData(
    title: Option<string>,
    username: Option<string>,
    password: Option<string>,
    website: Option<string>,
    notes: Option<string>)

  /** The rows an `UPDATE ... SET assign WHERE where` leaves: same rows, same order, matching ones rewritten. */
  function UpdateWhere<R>(rows: seq<R>, where: R -> bool, assign: R -> R): seq<R>
  {
    seq(|rows|, k requires 0 <= k < |rows| => if where(rows[k]) then assign(rows[k]) else rows[k])
  }

  /** Position of the first row satisfying `where`, or `|rows|` when none does. */
  function FirstIndex<R>(rows: seq<R>, where: R -> bool): (k: nat)
    ensures k <= |rows|
    ensures k < |rows| ==> where(rows[k])
    ensures forall j :: 0 <= j < k ==> !where(rows[j])
  {
    if rows == [] then 0
    else if where(rows[0]) then 0
    else 1 + FirstIndex(rows[1..], where)
  }

  /** `rows[0]` of a `SELECT * ... WHERE where` read in table order, or `None` (JavaScript's `undefined`). */
  function FirstWhere<R>(rows: seq<R>, where: R -> bool): (r: Option<R>)
    ensures r.None? <==> forall k :: 0 <= k < |rows| ==> !where(rows[k])
    ensures r.Some? ==> r.value in rows && where(r.value)
  {
    var k := FirstIndex(rows, where);
    if k < |rows| then Some(rows[k]) else None
  }

  /** An UPDATE whose WHERE holds of no row leaves the table as it was. */
  lemma UpdateWhereNone<R>(rows: seq<R>, where: R -> bool, assign: R -> R)
    requires forall k :: 0 <= k < |rows| ==> !where(rows[k])
    ensures UpdateWhere(rows, where, assign) == rows
  {
  }

  /** An UPDATE whose WHERE holds of exactly the row at `k` rewrites that row and no other. */
  lemma UpdateWhereOne<R>(rows: seq<R>, where: R -> bool, assign: R -> R, k: nat)
    requires k < |rows| && where(rows[k])
    requires forall j :: 0 <= j < |rows| && j != k ==> !where(rows[j])
    ensures UpdateWhere(rows, where, assign) == rows[k := assign(rows[k])]
  {
  }
}
