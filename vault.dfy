/**
 * The database the routes share, as one object holding both tables and their
 * SERIAL counters, and the handlers of routes/auth.js and
 * routes/passwords.js that change it. Each handler runs its statements one
 * after another; `now` stands for CURRENT_TIMESTAMP. The two read-only
 * handlers are the functions `Accounts.LookupByEmail` and
 * `Records.ListForUser`.
 */
module Vault {
  import opened Schema
  import Accounts
  import Records
  import opened Sync

  /** The foreign key `passwords.user_id REFERENCES users(id)`. */
  ghost predicate OwnersExist(rows: seq<PasswordRow>, users: seq<UserRow>)
  {
    forall i :: 0 <= i < |rows| ==> Accounts.HasId(users, rows[i].userId)
  }

  /** JavaScript's `!x` for a numeric request field that may be absent. */
  predicate FalsyId(x: Option<int>)
  {
    x.None? || x.value == 0
  }

  /** JavaScript's `!x` for a text request field that may be absent. */
  predicate FalsyText(x: Option<string>)
  {
    x.None? || x.value == ""
  }

  /** Appending a user keeps every existing owner reference valid. */
  lemma OwnersExistGrow(rows: seq<PasswordRow>, users: seq<UserRow>, u: UserRow)
    requires OwnersExist(rows, users)
    ensures OwnersExist(rows, users + [u])
  {
    forall i | 0 <= i < |rows|
      ensures Accounts.HasId(users + [u], rows[i].userId)
    {
      var k :| 0 <= k < |users| && users[k].id == rows[i].userId;
      assert (users + [u])[k] == users[k];
    }
  }

  /** Stamping one user's `updated_at` keeps every owner reference valid. */
  lemma OwnersExistRenew(rows: seq<PasswordRow>, users: seq<UserRow>, k: nat, now: nat)
    requires OwnersExist(rows, users)
    requires k < |users|
    ensures OwnersExist(rows, users[k := users[k].(updatedAt := now)])
  {
    var users' := users[k := users[k].(updatedAt := now)];
    forall i | 0 <= i < |rows|
      ensures Accounts.HasId(users', rows[i].userId)
    {
      var j :| 0 <= j < |users| && users[j].id == rows[i].userId;
      assert users'[j].id == users[j].id;
    }
  }

  /** Signin's stamp of the row at `k` is a one-row change that keeps the users table and every owner reference valid. */
  lemma TouchKeepsValid(users: seq<UserRow>, nextId: nat, rows: seq<PasswordRow>, k: nat, now: nat)
    requires Accounts.WellFormed(users, nextId) && OwnersExist(rows, users)
    requires k < |users|
    ensures Accounts.Touch(users, users[k].id, now) == users[k := users[k].(updatedAt := now)]
    ensures Accounts.WellFormed(Accounts.Touch(users, users[k].id, now), nextId)
    ensures OwnersExist(rows, Accounts.Touch(users, users[k].id, now))
  {
    Accounts.TouchOneRow(users, nextId, k, now);
    OwnersExistRenew(rows, users, k, now);
  }

  /** A sync item keeps every owner reference valid: it inserts only for an existing owner and never changes `user_id`. */
  lemma OwnersExistAfterStep(b: Batch, owner: int, known: bool, e: SyncEntry, now: nat, users: seq<UserRow>)
    requires e.Entry? && Records.WellFormed(b.rows, b.nextId)
    requires OwnersExist(b.rows, users)
    requires known == Accounts.HasId(users, owner)
    ensures OwnersExist(Step(b, owner, known, e, now).rows, users)
  {
    var a := Step(b, owner, known, e, now);
    StepKeepsTable(b, owner, known, e, now);
    forall i | 0 <= i < |a.rows|
      ensures Accounts.HasId(users, a.rows[i].userId)
    {
      if i < |b.rows| {
        assert a.rows[i].userId == b.rows[i].userId;
      }
    }
  }

  class Database {
    var users: seq<UserRow>
    var nextUserId: nat
    var passwords: seq<PasswordRow>
    var nextPasswordId: nat

    ghost predicate Valid()
      reads this
    {
      && Accounts.WellFormed(users, nextUserId)
      && Records.WellFormed(passwords, nextPasswordId)
      && OwnersExist(passwords, users)
    }

    /** Both tables empty, both sequences at 1. */
    constructor ()
      ensures Valid()
      ensures users == [] && passwords == [] && nextUserId == 1 && nextPasswordId == 1
    {
      users, passwords := [], [];
      nextUserId, nextPasswordId := 1, 1;
    }

    /**
     * `POST /signup`: refused when any row, active or not, shares the email
     * or the google id; otherwise one row is inserted, unless a NOT NULL
     * column (google id, email, name) is missing, which fails the INSERT.
     */
    method Signup(googleId: Option<string>, email: Option<string>, name: Option<string>,
                  picture: Option<string>, verifiedEmail: Option<bool>, now: nat)
      returns (reply: Reply<UserRow>)
      requires Valid()
      modifies this
      ensures Valid()
      ensures passwords == old(passwords) && nextPasswordId == old(nextPasswordId)
      ensures Accounts.HasClaimant(old(users), email, googleId) ==>
        reply == Duplicate && users == old(users) && nextUserId == old(nextUserId)
      ensures !Accounts.HasClaimant(old(users), email, googleId) && (googleId.None? || email.None? || name.None?) ==>
        reply == ServerError && users == old(users) && nextUserId == old(nextUserId) + 1
      ensures reply.Ok? <==>
        !Accounts.HasClaimant(old(users), email, googleId) && googleId.Some? && email.Some? && name.Some?
      ensures reply.Ok? ==>
        && reply.value == Accounts.NewUser(old(nextUserId), googleId.value, email.value, name.value, picture, verifiedEmail, now)
        && users == old(users) + [reply.value]
        && nextUserId == old(nextUserId) + 1
    {
      if Accounts.HasClaimant(users, email, googleId) {
        return Duplicate;
      }
      if googleId.None? || email.None? || name.None? {
        nextUserId := nextUserId + 1;
        return ServerError;
      }
      var u := Accounts.NewUser(nextUserId, googleId.value, email.value, name.value, picture, verifiedEmail, now);
      Accounts.SignupKeepsWellFormed(users, nextUserId, googleId.value, email.value, name.value, picture, verifiedEmail, now);
      OwnersExistGrow(passwords, users, u);
      users := users + [u];
      nextUserId := nextUserId + 1;
      reply := Ok(u);
    }

    /**
     * `POST /signin`: succeeds exactly when an active row matches both the
     * email and the google id; it then stamps that row's `updated_at` and
     * returns the row as it was read before the stamp.
     */
    method Signin(email: Option<string>, googleId: Option<string>, now: nat) returns (reply: Reply<UserRow>)
      requires Valid()
      modifies this
      ensures Valid()
      ensures passwords == old(passwords) && nextPasswordId == old(nextPasswordId) && nextUserId == old(nextUserId)
      ensures var k := Accounts.FindSignIn(old(users), email, googleId);
        && (k == |old(users)| ==> reply == NotFound && users == old(users))
        && (k < |old(users)| ==>
              && reply == Ok(old(users)[k])
              && users == old(users)[k := old(users)[k].(updatedAt := now)])
    {
      var k := Accounts.FindSignIn(users, email, googleId);
      if k == |users| {
        return NotFound;
      }
      var u := users[k];
      TouchKeepsValid(users, nextUserId, passwords, k, now);
      users := Accounts.Touch(users, u.id, now);
      reply := Ok(u);
    }

    /**
     * `POST /`: refused when `user_id` or `title` is missing or falsy;
     * otherwise one live row owned by `user_id`, without a mobile id, is
     * inserted and returned, unless no user has that id (the foreign key
     * fails the INSERT).
     */
    method CreatePassword(userId: Option<int>, d: RecordData, now: nat) returns (reply: Reply<PasswordRow>)
      requires Valid()
      modifies this
      ensures Valid()
      ensures users == old(users) && nextUserId == old(nextUserId)
      ensures FalsyId(userId) || FalsyText(d.title) ==>
        reply == BadRequest && passwords == old(passwords) && nextPasswordId == old(nextPasswordId)
      ensures !FalsyId(userId) && !FalsyText(d.title) && !Accounts.HasId(users, userId.value) ==>
        reply == ServerError && passwords == old(passwords) && nextPasswordId == old(nextPasswordId) + 1
      ensures reply.Ok? <==> !FalsyId(userId) && !FalsyText(d.title) && Accounts.HasId(users, userId.value)
      ensures reply.Ok? ==>
        && reply.value == Records.NewRow(old(nextPasswordId), userId.value, d.title.value, d, None, now)
        && passwords == old(passwords) + [reply.value]
        && nextPasswordId == old(nextPasswordId) + 1
    {
      if FalsyId(userId) || FalsyText(d.title) {
        return BadRequest;
      }
      var owner := userId.value;
      if !Accounts.HasId(users, owner) {
        nextPasswordId := nextPasswordId + 1;
        return ServerError;
      }
      var row := Records.NewRow(nextPasswordId, owner, d.title.value, d, None, now);
      passwords := passwords + [row];
      nextPasswordId := nextPasswordId + 1;
      reply := Ok(row);
    }

    /**
     * `PUT /:id`: rewrites the content fields and `updated_at` of the live
     * row with that id and returns it; not found (table unchanged) when no
     * live row has that id, soft-deleted rows included. A missing title
     * makes the UPDATE violate NOT NULL when a row matches.
     */
    method UpdatePassword(id: int, d: RecordData, now: nat) returns (reply: Reply<PasswordRow>)
      requires Valid()
      modifies this
      ensures Valid()
      ensures users == old(users) && nextUserId == old(nextUserId) && nextPasswordId == old(nextPasswordId)
      ensures var k := Records.FindLive(old(passwords), id);
        && (k == |old(passwords)| ==> reply == NotFound && passwords == old(passwords))
        && (k < |old(passwords)| && d.title.None? ==> reply == ServerError && passwords == old(passwords))
        && (k < |old(passwords)| && d.title.Some? ==>
              && reply == Ok(Records.Rewrite(old(passwords)[k], d.title.value, d, now))
              && passwords == old(passwords)[k := reply.value])
    {
      var k := Records.FindLive(passwords, id);
      if k == |passwords| {
        // The UPDATE runs and returns no row; with a NULL title it matches nothing as well.
        if d.title.Some? {
          Records.RewriteLiveUnmatched(passwords, id, d.title.value, d, now);
          passwords := Records.RewriteLive(passwords, id, d.title.value, d, now);
        }
        return NotFound;
      }
      if d.title.None? {
        return ServerError;
      }
      Records.RewriteLiveOneRow(passwords, nextPasswordId, k, d.title.value, d, now);
      passwords := Records.RewriteLive(passwords, id, d.title.value, d, now);
      assert forall j :: 0 <= j < |passwords| ==> passwords[j].userId == old(passwords)[j].userId;
      reply := Ok(passwords[k]);
    }

    /**
     * `DELETE /:id`: marks the live row with that id as deleted and stamps
     * `updated_at`; no row is removed. Not found when no live row has that
     * id, so deleting the same id again reports not found.
     */
    method DeletePassword(id: int, now: nat) returns (reply: Reply<()>)
      requires Valid()
      modifies this
      ensures Valid()
      ensures users == old(users) && nextUserId == old(nextUserId) && nextPasswordId == old(nextPasswordId)
      ensures |passwords| == |old(passwords)|
      ensures var k := Records.FindLive(old(passwords), id);
        && (k == |old(passwords)| ==> reply == NotFound && passwords == old(passwords))
        && (k < |old(passwords)| ==>
              reply == Ok(()) && passwords == old(passwords)[k := old(passwords)[k].(deleted := true, updatedAt := now)])
      ensures Records.FindLive(passwords, id) == |passwords|
    {
      var k := Records.FindLive(passwords, id);
      if k == |passwords| {
        // The UPDATE runs and returns no row.
        Records.SoftDeleteLiveUnmatched(passwords, id, now);
        passwords := Records.SoftDeleteLive(passwords, id, now);
        return NotFound;
      }
      Records.SoftDeleteLiveOneRow(passwords, nextPasswordId, k, now);
      Records.SoftDeleteLiveLeavesNoLiveRow(passwords, id, now);
      passwords := Records.SoftDeleteLive(passwords, id, now);
      assert forall j :: 0 <= j < |passwords| ==> passwords[j].userId == old(passwords)[j].userId;
      reply := Ok(());
    }

    /**
     * `POST /sync`: refused before touching the table when `user_id` is
     * missing or falsy or `passwords` is not an array. Otherwise the items
     * are applied one by one, in order, exactly as `Run` describes; a `null`
     * item ends the handler with a server error, leaving the items before it
     * applied. When no item is `null` the reply is a success with one result
     * per recognised item.
     */
    method Sync(userId: Option<int>, entries: Option<seq<SyncEntry>>, now: nat) returns (reply: Reply<seq<SyncResult>>)
      requires Valid()
      modifies this
      ensures Valid()
      ensures users == old(users) && nextUserId == old(nextUserId)
      ensures FalsyId(userId) || entries.None? ==>
        reply == BadRequest && passwords == old(passwords) && nextPasswordId == old(nextPasswordId)
      ensures !FalsyId(userId) && entries.Some? ==>
        var es := entries.value;
        var n := FirstNull(es);
        var a := Run(Batch(old(passwords), old(nextPasswordId), []), userId.value,
                     Accounts.HasId(old(users), userId.value), es[..n], now);
        && passwords == a.rows && nextPasswordId == a.nextId
        && reply == if n < |es| then ServerError else Ok(a.results)
    {
      if FalsyId(userId) || entries.None? {
        return BadRequest;
      }
      // The foreign key is checked per INSERT, but no item changes `users`.
      var known := Accounts.HasId(users, userId.value);
      var results, stopped := RunItems(userId.value, known, entries.value, now);
      reply := if stopped then ServerError else Ok(results);
    }

    /**
     * The `for` loop of the sync handler: the items one by one, in order,
     * until the end or the first `null` item (`stopped`).
     */
    method RunItems(owner: int, known: bool, es: seq<SyncEntry>, now: nat)
      returns (results: seq<SyncResult>, stopped: bool)
      requires Valid()
      requires known == Accounts.HasId(users, owner)
      modifies this
      ensures Valid()
      ensures users == old(users) && nextUserId == old(nextUserId)
      ensures stopped == (FirstNull(es) < |es|)
      ensures Batch(passwords, nextPasswordId, results) ==
        Run(Batch(old(passwords), old(nextPasswordId), []), owner, known, es[..FirstNull(es)], now)
    {
      ghost var start := Batch(passwords, nextPasswordId, []);
      results := [];
      var i := 0;
      while i < |es|
        invariant i <= |es|
        invariant AllEntries(es[..i])
        invariant Batch(passwords, nextPasswordId, results) == Run(start, owner, known, es[..i], now)
        invariant users == old(users) && nextUserId == old(nextUserId)
        invariant Valid()
      {
        if es[i].NullEntry? {
          FirstNullAt(es, i);
          return results, true;
        }
        RunExtend(start, owner, known, es, i, now);
        results := ApplyItem(owner, known, es[i], now, results);
        i := i + 1;
      }
      FirstNullAt(es, i);
      stopped := false;
    }

    /**
     * One pass of the sync loop: the `switch` on the item's operation,
     * appending its result (if any) to `results`, exactly as `Step` says.
     */
    method ApplyItem(owner: int, known: bool, e: SyncEntry, now: nat, results: seq<SyncResult>)
      returns (results': seq<SyncResult>)
      requires Valid()
      requires e.Entry? && known == Accounts.HasId(users, owner)
      modifies this
      ensures Valid()
      ensures users == old(users) && nextUserId == old(nextUserId)
      ensures Batch(passwords, nextPasswordId, results') ==
        Step(Batch(old(passwords), old(nextPasswordId), results), owner, known, e, now)
    {
      ghost var before := Batch(passwords, nextPasswordId, results);
      StepKeepsTable(before, owner, known, e, now);
      OwnersExistAfterStep(before, owner, known, e, now, users);
      results' := results;
      match Parse(e.operation) {
        case None =>
        case Some(Create) =>
          if e.data.None? {
            results' := results + [Failed(Create, DataMissing)];
          } else if e.data.value.title.None? {
            nextPasswordId := nextPasswordId + 1;
            results' := results + [Failed(Create, TitleNull)];
          } else if !known {
            nextPasswordId := nextPasswordId + 1;
            results' := results + [Failed(Create, UnknownOwner)];
          } else {
            var row := Records.NewRow(nextPasswordId, owner, e.data.value.title.value, e.data.value, e.mobileId, now);
            passwords := passwords + [row];
            nextPasswordId := nextPasswordId + 1;
            results' := results + [Created(row)];
          }
        case Some(Update) =>
          if e.data.None? {
            results' := results + [Failed(Update, DataMissing)];
          } else if e.data.value.title.None? {
            if Records.FirstMobileMatch(passwords, e.mobileId, owner).Some? {
              results' := results + [Failed(Update, TitleNull)];
            } else {
              results' := results + [Updated(None)];
            }
          } else {
            passwords := Records.RewriteByMobile(passwords, e.mobileId, owner, e.data.value.title.value, e.data.value, now);
            results' := results + [Updated(Records.FirstMobileMatch(passwords, e.mobileId, owner))];
          }
        case Some(Delete) =>
          passwords := Records.SoftDeleteByMobile(passwords, e.mobileId, owner);
          results' := results + [Deleted];
      }
    }
  }
}
