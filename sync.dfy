/**
 * The bulk synchronisation of `POST /sync`: one item of the batch at a time,
 * in order, each applied to the `passwords` table by its own statement. This
 * module gives the effect of one item (`Step`) and of a run of items (`Run`);
 * the handler's loop in module Vault is proved to compute exactly `Run`.
 */
module Sync {
  import opened Schema
  import Records

  datatype Op = Create | Update | Delete

  /**
   * One element of the `passwords` array: `null` (`NullEntry`), or an object
   * with an `operation` string, an optional `data` payload and an optional
   * `mobile_id`.
   */
  datatype SyncEntry =
    | NullEntry
    | Entry(operation: string, data: Option<RecordData>, mobileId: Option<int>)

  /** Why an item failed: reading `data.title` of a missing `data`, a NULL title, or an owner id no user has. */
  datatype ItemError = DataMissing | TitleNull | UnknownOwner

  /** One element of `results`. */
  datatype SyncResult =
    | Created(row: PasswordRow)             // { operation: 'CREATE', success: true, password }
    | Updated(first: Option<PasswordRow>)   // { operation: 'UPDATE', success: true, password }, possibly undefined
    | Deleted                               // { operation: 'DELETE', success: true }
    | Failed(op: Op, error: ItemError)      // { operation, success: false, error }

  /** The `switch (operation)`: strict string equality, anything else falls through. */
  function Parse(operation: string): (r: Option<Op>)
    ensures r == Some(Create) <==> operation == "CREATE"
    ensures r == Some(Update) <==> operation == "UPDATE"
    ensures r == Some(Delete) <==> operation == "DELETE"
  {
    if operation == "CREATE" then Some(Create)
    else if operation == "UPDATE" then Some(Update)
    else if operation == "DELETE" then Some(Delete)
    else None
  }

  function OpOf(r: SyncResult): Op
  {
    match r
    case Created(_) => Create
    case Updated(_) => Update
    case Deleted => Delete
    case Failed(op, _) => op
  }

  predicate Succeeded(r: SyncResult)
  {
    !r.Failed?
  }

  /** The part of the handler's state a batch changes: the table, the id sequence and `syncResults`. */
  datatype Batch = Batch(rows: seq<PasswordRow>, nextId: nat, results: seq<SyncResult>)

  /**
   * One iteration of the loop, for the batch's `owner` (`ownerKnown`: some
   * user has that id, which the foreign key demands of an INSERT).
   * An INSERT refused by a NOT NULL or foreign-key constraint has already
   * drawn its id from the sequence; a missing `data` fails in JavaScript
   * before any statement is sent.
   */
  function Step(b: Batch, owner: int, ownerKnown: bool, e: SyncEntry, now: nat): (a: Batch)
    requires e.Entry?
    ensures Parse(e.operation).None? ==> a == b
    ensures Parse(e.operation).Some? ==>
      && |a.results| == |b.results| + 1
      && a.results == b.results + [a.results[|b.results|]]
      && OpOf(a.results[|b.results|]) == Parse(e.operation).value
    ensures b.nextId <= a.nextId <= b.nextId + 1
    ensures |a.rows| == |b.rows| || (|a.rows| == |b.rows| + 1 && a.rows == b.rows + [a.rows[|b.rows|]])
  {
    match Parse(e.operation)
    case None => b
    case Some(Create) =>
      if e.data.None? then b.(results := b.results + [Failed(Create, DataMissing)])
      else if e.data.value.title.None? then
        b.(nextId := b.nextId + 1, results := b.results + [Failed(Create, TitleNull)])
      else if !ownerKnown then
        b.(nextId := b.nextId + 1, results := b.results + [Failed(Create, UnknownOwner)])
      else
        var row := Records.NewRow(b.nextId, owner, e.data.value.title.value, e.data.value, e.mobileId, now);
        Batch(b.rows + [row], b.nextId + 1, b.results + [Created(row)])
    case Some(Update) =>
      if e.data.None? then b.(results := b.results + [Failed(Update, DataMissing)])
      else if e.data.value.title.None? then
        if Records.FirstMobileMatch(b.rows, e.mobileId, owner).Some? then
          b.(results := b.results + [Failed(Update, TitleNull)])
        else
          b.(results := b.results + [Updated(None)])
      else
        var rows := Records.RewriteByMobile(b.rows, e.mobileId, owner, e.data.value.title.value, e.data.value, now);
        b.(rows := rows, results := b.results + [Updated(Records.FirstMobileMatch(rows, e.mobileId, owner))])
    case Some(Delete) =>
      b.(rows := Records.SoftDeleteByMobile(b.rows, e.mobileId, owner), results := b.results + [Deleted])
  }

  predicate AllEntries(es: seq<SyncEntry>)
  {
    forall k :: 0 <= k < |es| ==> es[k].Entry?
  }

  /** The loop run over `es`, first item first. */
  function Run(b: Batch, owner: int, ownerKnown: bool, es: seq<SyncEntry>, now: nat): (a: Batch)
    requires AllEntries(es)
    ensures b.nextId <= a.nextId <= b.nextId + |es|
    ensures |b.rows| <= |a.rows| && |b.results| <= |a.results| <= |b.results| + |es|
    ensures a.results[..|b.results|] == b.results
    decreases |es|
  {
    if es == [] then b
    else Step(Run(b, owner, ownerKnown, es[..|es| - 1], now), owner, ownerKnown, es[|es| - 1], now)
  }

  /** Where the loop stops: the first `null` item (whose `catch` block itself throws), or the end. */
  function FirstNull(es: seq<SyncEntry>): (n: nat)
    ensures n <= |es|
    ensures AllEntries(es[..n])
    ensures n < |es| ==> es[n].NullEntry?
  {
    if es == [] then 0
    else if es[0].NullEntry? then 0
    else
      var n := FirstNull(es[1..]);
      assert es[..1 + n] == [es[0]] + es[1..][..n];
      1 + n
  }

  /** `FirstNull` is the one position with only entries before it and a `null` item (or the end) at it. */
  lemma FirstNullAt(es: seq<SyncEntry>, i: nat)
    requires i <= |es| && AllEntries(es[..i])
    requires i < |es| ==> es[i].NullEntry?
    ensures FirstNull(es) == i
  {
    var n := FirstNull(es);
    assert forall k :: 0 <= k < i ==> es[..i][k] == es[k];
    assert forall k :: 0 <= k < n ==> es[..n][k] == es[k];
  }

  /** Running one more item of `es` is one more `Step`. */
  lemma RunExtend(b: Batch, owner: int, ownerKnown: bool, es: seq<SyncEntry>, i: nat, now: nat)
    requires i < |es| && AllEntries(es[..i]) && es[i].Entry?
    ensures AllEntries(es[..i + 1])
    ensures Run(b, owner, ownerKnown, es[..i + 1], now) ==
      Step(Run(b, owner, ownerKnown, es[..i], now), owner, ownerKnown, es[i], now)
  {
    var p := es[..i + 1];
    assert p[..i] == es[..i];
    assert p[i] == es[i];
    forall k | 0 <= k < |p|
      ensures p[k].Entry?
    {
      if k < i { assert p[k] == es[..i][k]; }
    }
  }

  /** The operations of the recognised items of `es`, in order. */
  function Recognised(es: seq<SyncEntry>): seq<Op>
    requires AllEntries(es)
    decreases |es|
  {
    if es == [] then []
    else
      Recognised(es[..|es| - 1]) +
      match Parse(es[|es| - 1].operation)
      case Some(op) => [op]
      case None => []
  }

  /**
   * Items are handled strictly in order: running `xs + ys` is running `xs`
   * and then `ys` on what it left, whatever failures `xs` reported.
   */
  lemma {:induction false} RunAppend(b: Batch, owner: int, ownerKnown: bool, xs: seq<SyncEntry>, ys: seq<SyncEntry>, now: nat)
    requires AllEntries(xs) && AllEntries(ys)
    ensures AllEntries(xs + ys)
    ensures Run(b, owner, ownerKnown, xs + ys, now) == Run(Run(b, owner, ownerKnown, xs, now), owner, ownerKnown, ys, now)
    decreases |ys|
  {
    if ys != [] {
      var zs := xs + ys;
      assert zs[..|zs| - 1] == xs + ys[..|ys| - 1];
      assert zs[|zs| - 1] == ys[|ys| - 1];
      RunAppend(b, owner, ownerKnown, xs, ys[..|ys| - 1], now);
    } else {
      assert xs + ys == xs;
    }
  }

  /**
   * One result per CREATE, UPDATE or DELETE item, in the items' order, and
   * none for any other operation string; earlier results are kept.
   */
  lemma {:induction false} RunReportsRecognised(b: Batch, owner: int, ownerKnown: bool, es: seq<SyncEntry>, now: nat)
    requires AllEntries(es)
    ensures var r := Run(b, owner, ownerKnown, es, now).results;
      && |r| == |b.results| + |Recognised(es)|
      && r[..|b.results|] == b.results
      && forall k :: 0 <= k < |Recognised(es)| ==> OpOf(r[|b.results| + k]) == Recognised(es)[k]
    decreases |es|
  {
    if es != [] {
      RunReportsRecognised(b, owner, ownerKnown, es[..|es| - 1], now);
    }
  }

  /**
   * What a batch may do to the table, from `b` to `a`: the table stays well
   * formed, it only grows, every row that was there keeps its id, owner,
   * mobile id and creation time, a row of another user is not touched, and
   * every added row belongs to the batch's owner (who must exist), carries
   * `now` and a fresh id.
   */
  ghost predicate Grows(b: Batch, a: Batch, owner: int, ownerKnown: bool, now: nat)
  {
    && Records.WellFormed(a.rows, a.nextId)
    && b.nextId <= a.nextId
    && |b.rows| <= |a.rows|
    && (forall k :: 0 <= k < |b.rows| ==> Records.SameRecord(a.rows[k], b.rows[k]))
    && (forall k :: 0 <= k < |b.rows| && b.rows[k].userId != owner ==> a.rows[k] == b.rows[k])
    && (forall k :: |b.rows| <= k < |a.rows| ==>
          a.rows[k].userId == owner && a.rows[k].createdAt == now && b.nextId <= a.rows[k].id)
    && (|b.rows| < |a.rows| ==> ownerKnown)
  }

  lemma GrowsTransitive(b: Batch, m: Batch, a: Batch, owner: int, ownerKnown: bool, now: nat)
    requires Grows(b, m, owner, ownerKnown, now) && Grows(m, a, owner, ownerKnown, now)
    ensures Grows(b, a, owner, ownerKnown, now)
  {
    forall k | |b.rows| <= k < |a.rows|
      ensures a.rows[k].userId == owner && a.rows[k].createdAt == now && b.nextId <= a.rows[k].id
    {
      if k < |m.rows| {
        assert Records.SameRecord(a.rows[k], m.rows[k]);
      }
    }
  }

  /** A batch keeps the table well formed and only lets it grow, as `Grows` says. */
  lemma {:induction false} RunKeepsTable(b: Batch, owner: int, ownerKnown: bool, es: seq<SyncEntry>, now: nat)
    requires AllEntries(es)
    requires Records.WellFormed(b.rows, b.nextId)
    ensures Grows(b, Run(b, owner, ownerKnown, es, now), owner, ownerKnown, now)
    decreases |es|
  {
    if es != [] {
      var es' := es[..|es| - 1];
      RunKeepsTable(b, owner, ownerKnown, es', now);
      var m := Run(b, owner, ownerKnown, es', now);
      StepKeepsTable(m, owner, ownerKnown, es[|es| - 1], now);
      GrowsTransitive(b, m, Run(b, owner, ownerKnown, es, now), owner, ownerKnown, now);
    }
  }

  /** `RunKeepsTable` for one item. */
  lemma StepKeepsTable(b: Batch, owner: int, ownerKnown: bool, e: SyncEntry, now: nat)
    requires e.Entry?
    requires Records.WellFormed(b.rows, b.nextId)
    ensures Grows(b, Step(b, owner, ownerKnown, e, now), owner, ownerKnown, now)
  {
    var a := Step(b, owner, ownerKnown, e, now);
    match Parse(e.operation)
    case None =>
      GrowsInPlace(b, a, owner, ownerKnown, now);
    case Some(Create) =>
      if e.data.None? || e.data.value.title.None? || !ownerKnown {
        GrowsInPlace(b, a, owner, ownerKnown, now);
      } else {
        GrowsByInsert(b, a, owner, ownerKnown, now);
      }
    case Some(Update) =>
      GrowsInPlace(b, a, owner, ownerKnown, now);
    case Some(Delete) =>
      GrowsInPlace(b, a, owner, ownerKnown, now);
  }

  /** A step that rewrites rows in place, keeping what `SameRecord` keeps and leaving other users' rows alone. */
  lemma GrowsInPlace(b: Batch, a: Batch, owner: int, ownerKnown: bool, now: nat)
    requires Records.WellFormed(b.rows, b.nextId)
    requires b.nextId <= a.nextId && |a.rows| == |b.rows|
    requires forall k :: 0 <= k < |b.rows| ==> Records.SameRecord(a.rows[k], b.rows[k])
    requires forall k :: 0 <= k < |b.rows| && b.rows[k].userId != owner ==> a.rows[k] == b.rows[k]
    ensures Grows(b, a, owner, ownerKnown, now)
  {
  }

  /** A step that appends one row for a known owner, drawing the next id. */
  lemma GrowsByInsert(b: Batch, a: Batch, owner: int, ownerKnown: bool, now: nat)
    requires Records.WellFormed(b.rows, b.nextId) && ownerKnown
    requires |a.rows| == |b.rows| + 1 && a.rows[..|b.rows|] == b.rows && a.nextId == b.nextId + 1
    requires a.rows[|b.rows|].id == b.nextId && a.rows[|b.rows|].userId == owner && a.rows[|b.rows|].createdAt == now
    ensures Grows(b, a, owner, ownerKnown, now)
  {
    forall k | 0 <= k < |b.rows|
      ensures a.rows[k] == b.rows[k]
    {
      assert a.rows[..|b.rows|][k] == a.rows[k];
    }
  }

  /** A failed item leaves every row as it was; only the id sequence may have advanced. */
  lemma StepFailureKeepsRows(b: Batch, owner: int, ownerKnown: bool, e: SyncEntry, now: nat)
    requires e.Entry?
    requires var a := Step(b, owner, ownerKnown, e, now); |a.results| > |b.results| && a.results[|a.results| - 1].Failed?
    ensures Step(b, owner, ownerKnown, e, now).rows == b.rows
  {
  }

  /** A CREATE with a title for a known owner always appends a row; replaying it appends a second one with the same mobile id. */
  lemma ReplayedCreateDuplicates(b: Batch, owner: int, e: SyncEntry, now: nat)
    requires e.Entry? && Parse(e.operation) == Some(Create)
    requires e.data.Some? && e.data.value.title.Some?
    ensures var a := Step(Step(b, owner, true, e, now), owner, true, e, now);
      && |a.rows| == |b.rows| + 2
      && a.rows[..|b.rows|] == b.rows
      && a.rows[|b.rows|].mobileId == a.rows[|b.rows| + 1].mobileId == e.mobileId
      && a.rows[|b.rows|].id != a.rows[|b.rows| + 1].id
      && a.results == b.results + [Created(a.rows[|b.rows|]), Created(a.rows[|b.rows| + 1])]
  {
  }

  /**
   * An UPDATE or DELETE whose mobile id none of the owner's rows carries (a
   * missing mobile id included) changes no row and is still reported as a
   * success; the UPDATE returns no row.
   */
  lemma UnmatchedItemSucceeds(b: Batch, owner: int, ownerKnown: bool, e: SyncEntry, now: nat)
    requires e.Entry? && (Parse(e.operation) == Some(Delete) || (Parse(e.operation) == Some(Update) && e.data.Some?))
    requires forall k :: 0 <= k < |b.rows| ==> !Records.MobileMatch(b.rows[k], e.mobileId, owner)
    ensures var a := Step(b, owner, ownerKnown, e, now);
      && a.rows == b.rows && a.nextId == b.nextId
      && a.results == b.results + [if Parse(e.operation) == Some(Delete) then Deleted else Updated(None)]
  {
  }

  /**
   * A batch `[CREATE m, UPDATE m]` for a mobile id no row of the owner has
   * yet: exactly one row ends up with that mobile id, carrying the UPDATE's
   * content, and both items report success.
   */
  lemma CreateThenUpdate(b: Batch, owner: int, m: int, d1: RecordData, d2: RecordData, now: nat)
    requires d1.title.Some? && d2.title.Some?
    requires forall k :: 0 <= k < |b.rows| ==> !Records.MobileMatch(b.rows[k], Some(m), owner)
    ensures var es := [Entry("CREATE", Some(d1), Some(m)), Entry("UPDATE", Some(d2), Some(m))];
      var a := Run(b, owner, true, es, now);
      && |a.rows| == |b.rows| + 1
      && a.rows[..|b.rows|] == b.rows
      && Records.MobileMatch(a.rows[|b.rows|], Some(m), owner)
      && a.rows[|b.rows|] == Records.Rewrite(Records.NewRow(b.nextId, owner, d1.title.value, d1, Some(m), now), d2.title.value, d2, now)
      && |a.results| == |b.results| + 2
      && Succeeded(a.results[|b.results|]) && Succeeded(a.results[|b.results| + 1])
      && a.results[|b.results| + 1] == Updated(Some(a.rows[|b.rows|]))
  {
    var es := [Entry("CREATE", Some(d1), Some(m)), Entry("UPDATE", Some(d2), Some(m))];
    assert es[..1][..0] == [];
    assert es[..1] == [es[0]];
    var b1 := Step(b, owner, true, es[0], now);
    assert Run(b, owner, true, es[..1], now) == b1;
    var row := b1.rows[|b.rows|];
    var rows := Records.RewriteByMobile(b1.rows, Some(m), owner, d2.title.value, d2, now);
    assert forall k :: 0 <= k < |b.rows| ==> rows[k] == b.rows[k];
    assert rows[..|b.rows|] == b.rows;
    assert Records.FirstMobileMatch(rows, Some(m), owner) == Some(rows[|b.rows|]);
  }
}
