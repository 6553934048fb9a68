/**
 * The `users` table and the statements routes/auth.js runs against it:
 * the existence check and INSERT of signup, the SELECT and `updated_at`
 * UPDATE of signin, and the SELECT of lookup-by-email.
 */
module Accounts {
  import opened Schema

  /**
   * The table's own guarantees: SERIAL ids ascend in insertion order and stay
   * below the sequence's next value; `email` and `google_id` are UNIQUE.
   */
  ghost predicate WellFormed(users: seq<UserRow>, nextId: nat)
  {
    && (forall i, j :: 0 <= i < j < |users| ==> users[i].id < users[j].id)
    && (forall i :: 0 <= i < |users| ==> users[i].id < nextId)
    && (forall i, j :: 0 <= i < j < |users| ==> users[i].email != users[j].email)
    && (forall i, j :: 0 <= i < j < |users| ==> users[i].googleId != users[j].googleId)
  }

  /** Some row carries this id (the target of the `passwords.user_id` foreign key). */
  predicate HasId(users: seq<UserRow>, id: int)
  {
    exists k :: 0 <= k < |users| && users[k].id == id
  }

  /** `email = $1 OR google_id = $2`; a NULL parameter matches nothing. */
  predicate Claims(u: UserRow, email: Option<string>, googleId: Option<string>)
  {
    email == Some(u.email) || googleId == Some(u.googleId)
  }

  /** `email = $1 AND google_id = $2 AND is_active = true`. */
  predicate SignsIn(u: UserRow, email: Option<string>, googleId: Option<string>)
  {
    email == Some(u.email) && googleId == Some(u.googleId) && u.isActive
  }

  /** The signup existence check: does any row, active or not, share the email or the google id? */
  predicate HasClaimant(users: seq<UserRow>, email: Option<string>, googleId: Option<string>)
  {
    exists k :: 0 <= k < |users| && Claims(users[k], email, googleId)
  }

  /** The row signup's INSERT creates: the listed columns as given, the rest from their defaults. */
  function NewUser(id: nat, googleId: string, email: string, name: string,
                   picture: Option<string>, verifiedEmail: Option<bool>, now: nat): (u: UserRow)
    ensures u.id == id && u.name == name && u.picture == picture && u.verifiedEmail == verifiedEmail
    ensures SignsIn(u, Some(email), Some(googleId))
    ensures u.createdAt == u.updatedAt == now && u.deletedAt.None?
  {
    UserRow(id, googleId, email, name, picture, verifiedEmail, now, now, true, None)
  }

  /**
   * Signin's SELECT: the position of `rows[0]`, the first active row matching
   * both email and google id in table order, or `|users|` when none does.
   */
  function FindSignIn(users: seq<UserRow>, email: Option<string>, googleId: Option<string>): (k: nat)
    ensures k <= |users|
    ensures k < |users| ==> SignsIn(users[k], email, googleId)
    ensures k == |users| ==> forall j :: 0 <= j < |users| ==> !SignsIn(users[j], email, googleId)
  {
    FirstIndex(users, (u: UserRow) => SignsIn(u, email, googleId))
  }

  /** Signin's `UPDATE users SET updated_at = CURRENT_TIMESTAMP WHERE id = $1`. */
  function Touch(users: seq<UserRow>, id: nat, now: nat): (r: seq<UserRow>)
    ensures |r| == |users|
    ensures forall k :: 0 <= k < |users| ==> r[k] == users[k].(updatedAt := r[k].updatedAt)
    ensures forall k :: 0 <= k < |users| ==> r[k].updatedAt == if users[k].id == id then now else users[k].updatedAt
  {
    UpdateWhere(users, (u: UserRow) => u.id == id, (u: UserRow) => u.(updatedAt := now))
  }

  /** Reply of `GET /user/:email`: `exists` and `user` (`null` is `None`). */
  datatype Lookup = Lookup(userExists: bool, user: Option<UserRow>)

  /** Lookup-by-email: `SELECT * FROM users WHERE email = $1 AND is_active = true`. */
  function LookupByEmail(users: seq<UserRow>, email: string): (r: Lookup)
    ensures r.userExists <==> exists k :: 0 <= k < |users| && users[k].email == email && users[k].isActive
    ensures r.user.Some? <==> r.userExists
    ensures r.user.Some? ==> r.user.value in users && r.user.value.email == email && r.user.value.isActive
  {
    var found := FirstWhere(users, (u: UserRow) => u.email == email && u.isActive);
    Lookup(found.Some?, found)
  }

  /** Under UNIQUE(email), the user lookup-by-email returns is the one active row with that email. */
  lemma LookupFindsTheActiveRow(users: seq<UserRow>, nextId: nat, k: nat)
    requires WellFormed(users, nextId)
    requires k < |users| && users[k].isActive
    ensures LookupByEmail(users, users[k].email) == Lookup(true, Some(users[k]))
  {
    var r := LookupByEmail(users, users[k].email);
    var j :| 0 <= j < |users| && users[j] == r.user.value;
  }

  /** Under UNIQUE(email), signin's SELECT finds exactly the row that signs in. */
  lemma FindSignInIsUnique(users: seq<UserRow>, nextId: nat, k: nat, email: Option<string>, googleId: Option<string>)
    requires WellFormed(users, nextId)
    requires k < |users| && SignsIn(users[k], email, googleId)
    ensures FindSignIn(users, email, googleId) == k
  {
  }

  /**
   * Signup admits only an identity nobody holds, so appending its row keeps
   * UNIQUE(email), UNIQUE(google_id) and the id order.
   */
  lemma SignupKeepsWellFormed(users: seq<UserRow>, nextId: nat, googleId: string, email: string,
                              name: string, picture: Option<string>, verifiedEmail: Option<bool>, now: nat)
    requires WellFormed(users, nextId)
    requires !HasClaimant(users, Some(email), Some(googleId))
    ensures WellFormed(users + [NewUser(nextId, googleId, email, name, picture, verifiedEmail, now)], nextId + 1)
  {
    var u := NewUser(nextId, googleId, email, name, picture, verifiedEmail, now);
    var users' := users + [u];
    forall i | 0 <= i < |users|
      ensures users'[i].email != u.email && users'[i].googleId != u.googleId
    {
      assert !Claims(users[i], Some(email), Some(googleId));
    }
  }

  /**
   * Signin's update touches exactly the matched row: with unique ids it is
   * that row with a new `updated_at`, and the table stays well formed.
   */
  lemma TouchOneRow(users: seq<UserRow>, nextId: nat, k: nat, now: nat)
    requires WellFormed(users, nextId)
    requires k < |users|
    ensures Touch(users, users[k].id, now) == users[k := users[k].(updatedAt := now)]
    ensures WellFormed(Touch(users, users[k].id, now), nextId)
  {
    var r := Touch(users, users[k].id, now);
    forall j | 0 <= j < |users| && j != k
      ensures r[j] == users[j]
    {
      assert users[j].id != users[k].id;
    }
  }
}
