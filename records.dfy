/**
 * The `passwords` table and the statements routes/passwords.js runs against
 * it: the listing SELECT, the INSERT of create and of a sync CREATE, the
 * by-id UPDATE and soft delete of the direct handlers, and the by-mobile-id
 * UPDATE and soft delete of a sync batch. No statement removes a row.
 */
module Records {
  import opened Schema

  /** The column default of `category`. */
  const DefaultCategory := "Applications"

  /** SERIAL ids ascend in insertion order and stay below the sequence's next value. */
  ghost predicate WellFormed(rows: seq<PasswordRow>, nextId: nat)
  {
    && (forall i, j :: 0 <= i < j < |rows| ==> rows[i].id < rows[j].id)
    && (forall i :: 0 <= i < |rows| ==> rows[i].id < nextId)
  }

  /** The columns no statement of the routes ever rewrites once the row exists. */
  predicate SameRecord(a: PasswordRow, b: PasswordRow)
  {
    && a.id == b.id && a.userId == b.userId && a.mobileId == b.mobileId
    && a.createdAt == b.createdAt && a.passcode == b.passcode && a.category == b.category
  }

  /** The row an INSERT of the listed columns yields; `passcode` is NULL and the rest take their defaults. */
  function NewRow(id: nat, owner: int, title: string, d: RecordData, mobileId: Option<int>, now: nat): (r: PasswordRow)
    ensures r.id == id && r.mobileId == mobileId && OwnedLive(r, owner)
    ensures r.title == title && r.username == d.username && r.password == d.password
    ensures r.website == d.website && r.notes == d.notes
    ensures r.passcode.None? && r.category == DefaultCategory && r.createdAt == r.updatedAt == now
  {
    PasswordRow(id, owner, title, d.username, d.password, None, d.website, d.notes,
                DefaultCategory, mobileId, now, now, false)
  }

  /** `SET title = $1, username = $2, password = $3, website = $4, notes = $5, updated_at = CURRENT_TIMESTAMP`. */
  function Rewrite(row: PasswordRow, title: string, d: RecordData, now: nat): (r: PasswordRow)
    ensures SameRecord(r, row) && r.deleted == row.deleted
  {
    row.(title := title, username := d.username, password := d.password,
         website := d.website, notes := d.notes, updatedAt := now)
  }

  // ----- listing: WHERE user_id = $1 AND deleted = false ORDER BY created_at DESC -----

  predicate OwnedLive(row: PasswordRow, owner: int)
  {
    row.userId == owner && !row.deleted
  }

  /** The rows the WHERE clause of the listing keeps, each as often as the table holds it. */
  function SelectLive(rows: seq<PasswordRow>, owner: int): (r: seq<PasswordRow>)
    ensures forall x :: multiset(r)[x] == if OwnedLive(x, owner) then multiset(rows)[x] else 0
  {
    if rows == [] then []
    else
      assert rows == [rows[0]] + rows[1..];
      (if OwnedLive(rows[0], owner) then [rows[0]] else []) + SelectLive(rows[1..], owner)
  }

  ghost predicate NewestFirst(s: seq<PasswordRow>)
  {
    forall i, j :: 0 <= i < j < |s| ==> s[i].createdAt >= s[j].createdAt
  }

  /** A row no older than the head of a newest-first sequence can go in front of it. */
  lemma PrependNewestFirst(a: PasswordRow, t: seq<PasswordRow>)
    requires NewestFirst(t)
    requires t != [] ==> t[0].createdAt <= a.createdAt
    ensures NewestFirst([a] + t)
  {
    var r := [a] + t;
    forall i, j | 0 <= i < j < |r|
      ensures r[i].createdAt >= r[j].createdAt
    {
      if i == 0 && j > 1 {
        assert t[0].createdAt >= t[j - 1].createdAt;
      }
    }
  }

  function InsertNewestFirst(x: PasswordRow, s: seq<PasswordRow>): (r: seq<PasswordRow>)
    requires NewestFirst(s)
    ensures NewestFirst(r)
    ensures multiset(r) == multiset(s) + multiset{x}
    ensures |r| == |s| + 1 && (r[0] == x || (s != [] && r[0] == s[0]))
  {
    if s == [] || s[0].createdAt <= x.createdAt then
      PrependNewestFirst(x, s);
      [x] + s
    else
      assert s == [s[0]] + s[1..];
      var t := InsertNewestFirst(x, s[1..]);
      PrependNewestFirst(s[0], t);
      [s[0]] + t
  }

  /** `ORDER BY created_at DESC`; the database leaves ties in no particular order, this picks one. */
  function SortNewestFirst(s: seq<PasswordRow>): (r: seq<PasswordRow>)
    ensures NewestFirst(r)
    ensures multiset(r) == multiset(s)
  {
    if s == [] then []
    else
      assert s == [s[0]] + s[1..];
      InsertNewestFirst(s[0], SortNewestFirst(s[1..]))
  }

  /**
   * `GET /user/:userId`: the owner's rows that are not soft-deleted, each as
   * often as the table holds it, newest first.
   */
  function ListForUser(rows: seq<PasswordRow>, owner: int): (r: seq<PasswordRow>)
    ensures NewestFirst(r)
    ensures forall x :: multiset(r)[x] == if OwnedLive(x, owner) then multiset(rows)[x] else 0
  {
    SortNewestFirst(SelectLive(rows, owner))
  }

  /** A row is listed for its owner exactly when it is in the table and not soft-deleted. */
  lemma ListedIff(rows: seq<PasswordRow>, owner: int, x: PasswordRow)
    ensures x in ListForUser(rows, owner) <==> x in rows && OwnedLive(x, owner)
  {
    assert x in ListForUser(rows, owner) <==> multiset(ListForUser(rows, owner))[x] > 0;
    assert x in rows <==> multiset(rows)[x] > 0;
  }

  /** What create inserts is listed for its owner afterwards, with exactly the content it was given. */
  lemma InsertedRowIsListed(rows: seq<PasswordRow>, row: PasswordRow)
    requires !row.deleted
    ensures row in ListForUser(rows + [row], row.userId)
  {
    ListedIff(rows + [row], row.userId, row);
  }

  // ----- direct update and soft delete: WHERE id = $n AND deleted = false -----

  predicate IsLive(row: PasswordRow, id: int)
  {
    row.id == id && !row.deleted
  }

  /** The direct update's statement. */
  function RewriteLive(rows: seq<PasswordRow>, id: int, title: string, d: RecordData, now: nat): (r: seq<PasswordRow>)
    ensures |r| == |rows|
    ensures forall k :: 0 <= k < |rows| ==> SameRecord(r[k], rows[k]) && r[k].deleted == rows[k].deleted
  {
    UpdateWhere(rows, (p: PasswordRow) => IsLive(p, id), (p: PasswordRow) => Rewrite(p, title, d, now))
  }

  /** The direct delete's statement: `SET deleted = true, updated_at = CURRENT_TIMESTAMP`. */
  function SoftDeleteLive(rows: seq<PasswordRow>, id: int, now: nat): (r: seq<PasswordRow>)
    ensures |r| == |rows|
    ensures forall k :: 0 <= k < |rows| ==> SameRecord(r[k], rows[k]) && (r[k].deleted <==> rows[k].deleted || rows[k].id == id)
  {
    UpdateWhere(rows, (p: PasswordRow) => IsLive(p, id), (p: PasswordRow) => p.(deleted := true, updatedAt := now))
  }

  /** Position of the live row with this id, or `|rows|`. */
  function FindLive(rows: seq<PasswordRow>, id: int): (k: nat)
    ensures k <= |rows|
    ensures k < |rows| ==> IsLive(rows[k], id)
    ensures k == |rows| ==> forall j :: 0 <= j < |rows| ==> !IsLive(rows[j], id)
  {
    FirstIndex(rows, (p: PasswordRow) => IsLive(p, id))
  }

  /** When no live row has the id, the direct update's statement changes nothing. */
  lemma RewriteLiveUnmatched(rows: seq<PasswordRow>, id: int, title: string, d: RecordData, now: nat)
    requires FindLive(rows, id) == |rows|
    ensures RewriteLive(rows, id, title, d, now) == rows
  {
    UpdateWhereNone(rows, (p: PasswordRow) => IsLive(p, id), (p: PasswordRow) => Rewrite(p, title, d, now));
  }

  /** When no live row has the id, the direct delete's statement changes nothing. */
  lemma SoftDeleteLiveUnmatched(rows: seq<PasswordRow>, id: int, now: nat)
    requires FindLive(rows, id) == |rows|
    ensures SoftDeleteLive(rows, id, now) == rows
  {
    UpdateWhereNone(rows, (p: PasswordRow) => IsLive(p, id), (p: PasswordRow) => p.(deleted := true, updatedAt := now));
  }

  /** With unique ids, the live row with a given id is the only row that can match it. */
  lemma OnlyLiveRow(rows: seq<PasswordRow>, nextId: nat, k: nat)
    requires WellFormed(rows, nextId)
    requires k < |rows| && !rows[k].deleted
    ensures forall j :: 0 <= j < |rows| && j != k ==> !IsLive(rows[j], rows[k].id)
  {
    forall j | 0 <= j < |rows| && j != k
      ensures rows[j].id != rows[k].id
    {
      if j < k { assert rows[j].id < rows[k].id; } else { assert rows[k].id < rows[j].id; }
    }
  }

  /**
   * The direct update rewrites the content and `updated_at` of the one live
   * row with that id and nothing else; the table stays well formed.
   */
  lemma RewriteLiveOneRow(rows: seq<PasswordRow>, nextId: nat, k: nat, title: string, d: RecordData, now: nat)
    requires WellFormed(rows, nextId)
    requires k < |rows| && !rows[k].deleted
    ensures RewriteLive(rows, rows[k].id, title, d, now) == rows[k := Rewrite(rows[k], title, d, now)]
    ensures WellFormed(RewriteLive(rows, rows[k].id, title, d, now), nextId)
  {
    OnlyLiveRow(rows, nextId, k);
    UpdateWhereOne(rows, (p: PasswordRow) => IsLive(p, rows[k].id),
                   (p: PasswordRow) => Rewrite(p, title, d, now), k);
  }

  /**
   * The direct delete marks the one live row with that id as deleted and
   * stamps `updated_at`; no row is removed and the table stays well formed.
   */
  lemma SoftDeleteLiveOneRow(rows: seq<PasswordRow>, nextId: nat, k: nat, now: nat)
    requires WellFormed(rows, nextId)
    requires k < |rows| && !rows[k].deleted
    ensures SoftDeleteLive(rows, rows[k].id, now) == rows[k := rows[k].(deleted := true, updatedAt := now)]
    ensures WellFormed(SoftDeleteLive(rows, rows[k].id, now), nextId)
  {
    OnlyLiveRow(rows, nextId, k);
    UpdateWhereOne(rows, (p: PasswordRow) => IsLive(p, rows[k].id),
                   (p: PasswordRow) => p.(deleted := true, updatedAt := now), k);
  }

  /** After a soft delete by id no live row with that id is left, so a second delete finds nothing. */
  lemma SoftDeleteLiveLeavesNoLiveRow(rows: seq<PasswordRow>, id: int, now: nat)
    ensures |SoftDeleteLive(rows, id, now)| == |rows|
    ensures FindLive(SoftDeleteLive(rows, id, now), id) == |rows|
  {
  }

  // ----- sync UPDATE and DELETE: WHERE mobile_id = $m AND user_id = $u -----

  /** `mobile_id = $m AND user_id = $u`; a NULL `mobile_id` on either side matches nothing. */
  predicate MobileMatch(row: PasswordRow, mobileId: Option<int>, owner: int)
  {
    mobileId.Some? && row.mobileId == mobileId && row.userId == owner
  }

  /** A sync UPDATE's statement; it does not look at `deleted`. */
  function RewriteByMobile(rows: seq<PasswordRow>, mobileId: Option<int>, owner: int,
                           title: string, d: RecordData, now: nat): (r: seq<PasswordRow>)
    ensures |r| == |rows|
    ensures forall k :: 0 <= k < |rows| && MobileMatch(rows[k], mobileId, owner) ==>
      && SameRecord(r[k], rows[k]) && r[k].deleted == rows[k].deleted
      && r[k].title == title && r[k].username == d.username && r[k].password == d.password
      && r[k].website == d.website && r[k].notes == d.notes && r[k].updatedAt == now
    ensures forall k :: 0 <= k < |rows| && !MobileMatch(rows[k], mobileId, owner) ==> r[k] == rows[k]
  {
    UpdateWhere(rows, (p: PasswordRow) => MobileMatch(p, mobileId, owner),
                (p: PasswordRow) => Rewrite(p, title, d, now))
  }

  /** A sync DELETE's statement: `SET deleted = true`, and nothing else, on every matching row. */
  function SoftDeleteByMobile(rows: seq<PasswordRow>, mobileId: Option<int>, owner: int): (r: seq<PasswordRow>)
    ensures |r| == |rows|
    ensures forall k :: 0 <= k < |rows| ==>
      r[k] == if MobileMatch(rows[k], mobileId, owner) then rows[k].(deleted := true) else rows[k]
  {
    UpdateWhere(rows, (p: PasswordRow) => MobileMatch(p, mobileId, owner),
                (p: PasswordRow) => p.(deleted := true))
  }

  /** `rows[0]` of what a sync UPDATE returns, read in table order. */
  function FirstMobileMatch(rows: seq<PasswordRow>, mobileId: Option<int>, owner: int): (r: Option<PasswordRow>)
    ensures r.None? <==> forall k :: 0 <= k < |rows| ==> !MobileMatch(rows[k], mobileId, owner)
    ensures r.Some? ==> r.value in rows && MobileMatch(r.value, mobileId, owner)
  {
    FirstWhere(rows, (p: PasswordRow) => MobileMatch(p, mobileId, owner))
  }

  /** After a sync DELETE on a mobile id, no row with that mobile id is listed for the owner, and every such row is still stored. */
  lemma SoftDeleteByMobileHidesFromListing(rows: seq<PasswordRow>, mobileId: Option<int>, owner: int)
    requires mobileId.Some?
    ensures forall x :: x in ListForUser(SoftDeleteByMobile(rows, mobileId, owner), owner) ==> x.mobileId != mobileId
    ensures forall k :: 0 <= k < |rows| && MobileMatch(rows[k], mobileId, owner) ==>
      SoftDeleteByMobile(rows, mobileId, owner)[k] == rows[k].(deleted := true)
  {
    var r := SoftDeleteByMobile(rows, mobileId, owner);
    forall x | x in ListForUser(r, owner)
      ensures x.mobileId != mobileId
    {
      ListedIff(r, owner, x);
      var k :| 0 <= k < |r| && r[k] == x;
      assert !MobileMatch(rows[k], mobileId, owner);
    }
  }
}
