/**
 * A soft-deletable entity table (`tm_ingredient`, `tm_item`) as a map from identifier to row,
 * and the effect of each handler on it: the status it answers with and the table afterwards.
 * The two entity handlers differ only in their payload columns, so the table is generic in the
 * payload `P`. Identifiers and clock readings are inputs: the caller supplies the fresh UUID and
 * the current time.
 */
module SoftTable {
  import opened Wrappers
  import opened IdOrder
  import Pagination


  /** An opaque clock reading (`time.Now()` / `NOW()`). */
  type Time = int

  /** A stored row; `deletedAt == None` is `deleted_at IS NULL`. */
  datatype Row<P> = Row(name: string, payload: P, createdAt: Time, updatedAt: Option<Time>, deletedAt: Option<Time>)
  {
    predicate Active() { deletedAt.None? }
  }

  type Rows<P> = map<Id, Row<P>>

  /** A decoded request body: the name and the entity-specific columns. */
  datatype Request<P> = Request(name: string, payload: P)

  /** What a write handler answers, and the table after it. */
  datatype Outcome<P> = Outcome(status: Status, rows: Rows<P>)

  /** One element of `data` in a list response. */
  datatype Entry<P> = Entry(id: Id, name: string, payload: P)

  datatype Meta = Meta(page: int, limit: int, total: nat)

  /** A list response; `ListFailed` is the 500 of a query the database rejects. */
  datatype Listing<P> = Listing(data: seq<Entry<P>>, meta: Meta) | ListFailed

  function ActiveIds<P>(rows: Rows<P>): (ids: set<Id>)
  {
    set id | id in rows && rows[id].Active()
  }

  /** Some non-deleted row carries `name` (the 409 check of create). */
  predicate NameInUse<P>(rows: Rows<P>, name: string)
  {
    exists id :: id in rows && rows[id].Active() && rows[id].name == name
  }

  /** Some non-deleted row other than `self` carries `name` (the 409 check of update). */
  predicate NameInUseByOther<P>(rows: Rows<P>, name: string, self: Id)
  {
    exists id :: id in rows && id != self && rows[id].Active() && rows[id].name == name
  }

  /** The table invariant the handlers aim at: no two non-deleted rows share a name. */
  ghost predicate UniqueActiveNames<P>(rows: Rows<P>)
  {
    forall a, b :: a in rows && b in rows && rows[a].Active() && rows[b].Active() && rows[a].name == rows[b].name ==> a == b
  }

  /** Soft deletion is final: every deleted row is still there, unchanged. */
  ghost predicate KeepsDeleted<P>(before: Rows<P>, after: Rows<P>)
  {
    forall id :: id in before && !before[id].Active() ==> id in after && after[id] == before[id]
  }

  /** POST: validate, check the name among non-deleted rows, insert a fresh row. */
  function Create<P>(rows: Rows<P>, body: Option<Request<P>>, id: Id, now: Time): (o: Outcome<P>)
    requires id !in rows
    ensures o.status == Created || o.status == BadRequest || o.status == Conflict
    ensures o.status == BadRequest <==> body.None? || body.value.name == ""
    ensures o.status == Conflict <==> body.Some? && body.value.name != "" && NameInUse(rows, body.value.name)
    ensures o.status != Created ==> o.rows == rows
    ensures o.status == Created ==>
      && o.rows.Keys == rows.Keys + {id}
      && o.rows[id] == Row(body.value.name, body.value.payload, now, None, None)
      && forall k :: k in rows ==> o.rows[k] == rows[k]
    ensures ActiveIds(o.rows) == if o.status == Created then ActiveIds(rows) + {id} else ActiveIds(rows)
    ensures KeepsDeleted(rows, o.rows)
    ensures UniqueActiveNames(rows) ==> UniqueActiveNames(o.rows)
  {
    if body.None? || body.value.name == "" then Outcome(BadRequest, rows)
    else if NameInUse(rows, body.value.name) then Outcome(Conflict, rows)
    else Outcome(Created, rows[id := Row(body.value.name, body.value.payload, now, None, None)])
  }

  /**
   * PUT: validate, check the name among the OTHER non-deleted rows, then update the row if it
   * exists and is not deleted. The name check comes first, so a clash wins over a missing row.
   */
  function Update<P>(rows: Rows<P>, id: Id, body: Option<Request<P>>, now: Time): (o: Outcome<P>)
    ensures o.status == OK || o.status == BadRequest || o.status == Conflict || o.status == NotFound
    ensures o.status == BadRequest <==> id == "" || body.None? || body.value.name == ""
    ensures o.status == Conflict <==> id != "" && body.Some? && body.value.name != "" && NameInUseByOther(rows, body.value.name, id)
    ensures o.status == OK <==>
      id != "" && body.Some? && body.value.name != "" && !NameInUseByOther(rows, body.value.name, id) && id in ActiveIds(rows)
    ensures o.status != OK ==> o.rows == rows
    ensures o.rows.Keys == rows.Keys
    ensures o.status == OK ==>
      o.rows[id] == rows[id].(name := body.value.name, payload := body.value.payload, updatedAt := Some(now))
    ensures forall k :: k in rows && k != id ==> o.rows[k] == rows[k]
    ensures ActiveIds(o.rows) == ActiveIds(rows)
    ensures KeepsDeleted(rows, o.rows)
    ensures UniqueActiveNames(rows) ==> UniqueActiveNames(o.rows)
  {
    if id == "" || body.None? || body.value.name == "" then Outcome(BadRequest, rows)
    else if NameInUseByOther(rows, body.value.name, id) then Outcome(Conflict, rows)
    else if id !in rows || !rows[id].Active() then Outcome(NotFound, rows)
    else Outcome(OK, rows[id := rows[id].(name := body.value.name, payload := body.value.payload, updatedAt := Some(now))])
  }

  /** DELETE: stamp `deleted_at` on a non-deleted row; the row itself stays. */
  function Delete<P>(rows: Rows<P>, id: Id, now: Time): (o: Outcome<P>)
    ensures o.status == OK || o.status == BadRequest || o.status == NotFound
    ensures o.status == BadRequest <==> id == ""
    ensures o.status == OK <==> id != "" && id in ActiveIds(rows)
    ensures o.status != OK ==> o.rows == rows
    ensures o.rows.Keys == rows.Keys
    ensures o.status == OK ==> o.rows[id] == rows[id].(deletedAt := Some(now)) && !o.rows[id].Active()
    ensures forall k :: k in rows && k != id ==> o.rows[k] == rows[k]
    ensures ActiveIds(o.rows) == if o.status == OK then ActiveIds(rows) - {id} else ActiveIds(rows)
    ensures KeepsDeleted(rows, o.rows)
    ensures UniqueActiveNames(rows) ==> UniqueActiveNames(o.rows)
  {
    if id == "" then Outcome(BadRequest, rows)
    else if id !in rows || !rows[id].Active() then Outcome(NotFound, rows)
    else Outcome(OK, rows[id := rows[id].(deletedAt := Some(now))])
  }

  /** The non-deleted identifiers in the order the list query returns them. */
  function ListedIds<P>(rows: Rows<P>): (ids: seq<Id>)
    ensures forall id :: id in ids <==> id in rows && rows[id].Active()
    ensures |ids| == |ActiveIds(rows)|
    ensures Descending(ids)
  {
    SortedDesc(ActiveIds(rows))
  }

  /** The rows `LIMIT limit OFFSET offset` selects from the ordered non-deleted rows. */
  function Page<P>(rows: Rows<P>, limit: nat, offset: nat): (page: seq<Entry<P>>)
    ensures |page| <= limit
    ensures |page| == if offset >= |ActiveIds(rows)| then 0 else Pagination.Min(limit, |ActiveIds(rows)| - offset)
    ensures forall k :: 0 <= k < |page| ==>
      && page[k].id in rows && rows[page[k].id].Active()
      && page[k] == Entry(page[k].id, rows[page[k].id].name, rows[page[k].id].payload)
      && page[k].id == ListedIds(rows)[offset + k]
  {
    var ids := ListedIds(rows);
    var lo := Pagination.Min(offset, |ids|);
    var hi := Pagination.Min(offset + limit, |ids|);
    seq(hi - lo, k requires 0 <= k < hi - lo => Entry(ids[lo + k], rows[ids[lo + k]].name, rows[ids[lo + k]].payload))
  }

  /** GET: resolve the query, fetch the page, count all non-deleted rows. */
  function List<P>(rows: Rows<P>, q: Pagination.Query): (r: Listing<P>)
    ensures var p := Pagination.Resolve(q);
      r.ListFailed? <==> p.limit < 0 || p.offset < 0
    ensures var p := Pagination.Resolve(q);
      r.Listing? ==>
        && r.meta == Meta(p.page, p.limit, |ActiveIds(rows)|)
        && r.data == Page(rows, p.limit, p.offset)
        && |r.data| <= p.limit
        && (forall k :: 0 <= k < |r.data| ==> r.data[k].id in ActiveIds(rows))
        && forall i, j :: 0 <= i < j < |r.data| ==> Below(r.data[j].id, r.data[i].id)
  {
    var p := Pagination.Resolve(q);
    if p.limit < 0 || p.offset < 0 then ListFailed
    else Listing(Page(rows, p.limit, p.offset), Meta(p.page, p.limit, |ActiveIds(rows)|))
  }

  /**
   * `page=abc` with a positive limit: the page resolves to 0 and the offset to `-limit`, which the
   * database rejects, so the listing answers 500 instead of reporting page 0.
   */
  lemma NonNumericPageFails<P>(rows: Rows<P>, q: Pagination.Query)
    requires q.page != "" && !Pagination.IsDecimal(q.page) && !Pagination.Overflows(q.page)
    requires Pagination.Resolve(q).limit > 0
    ensures List(rows, q).ListFailed?
  {
    Pagination.NonNumericPage(q);
  }

  // ---------------------------------------------------------------- properties across calls

  /** Deleting the same identifier twice: the second call finds nothing to delete. */
  lemma DeleteTwiceNotFound<P>(rows: Rows<P>, id: Id, first: Time, second: Time)
    requires id != ""
    ensures Delete(Delete(rows, id, first).rows, id, second).status == NotFound
    ensures Delete(Delete(rows, id, first).rows, id, second).rows == Delete(rows, id, first).rows
  {
  }

  /** Updating a row while keeping its own name is not a conflict (the check excludes the row). */
  lemma UpdateKeepingOwnName<P>(rows: Rows<P>, id: Id, payload: P, now: Time)
    requires UniqueActiveNames(rows)
    requires id != "" && id in rows && rows[id].Active() && rows[id].name != ""
    ensures Update(rows, id, Some(Request(rows[id].name, payload)), now).status == OK
  {
  }

  /** A name clash is reported before a missing row: 409 even when the identifier does not exist. */
  lemma UpdateConflictBeforeNotFound<P>(rows: Rows<P>, id: Id, body: Request<P>, now: Time)
    requires id != "" && id !in rows && body.name != "" && NameInUse(rows, body.name)
    ensures Update(rows, id, Some(body), now).status == Conflict
  {
  }

  /** A created row is listed: it is non-deleted and appears, with its values, at its place in the order. */
  lemma CreatedIsListed<P>(rows: Rows<P>, body: Request<P>, id: Id, now: Time, k: nat)
    requires id !in rows
    requires Create(rows, Some(body), id, now).status == Created
    ensures id in ListedIds(Create(rows, Some(body), id, now).rows)
    ensures var after := Create(rows, Some(body), id, now).rows;
      k < |ListedIds(after)| && ListedIds(after)[k] == id ==> Page(after, 1, k) == [Entry(id, body.name, body.payload)]
  {
  }

  /** Create, then update, then list: the listing shows the updated values, not the original ones. */
  lemma CreateUpdateRoundTrip<P>(rows: Rows<P>, first: Request<P>, second: Request<P>, id: Id, t1: Time, t2: Time, k: nat)
    requires id !in rows && id != ""
    requires Create(rows, Some(first), id, t1).status == Created
    requires Update(Create(rows, Some(first), id, t1).rows, id, Some(second), t2).status == OK
    ensures var after := Update(Create(rows, Some(first), id, t1).rows, id, Some(second), t2).rows;
      && id in ListedIds(after)
      && after[id] == Row(second.name, second.payload, t1, Some(t2), None)
      && (k < |ListedIds(after)| && ListedIds(after)[k] == id ==> Page(after, 1, k) == [Entry(id, second.name, second.payload)])
  {
  }

  /** Uniqueness only counts non-deleted rows: once the holder is deleted, its name can be created again. */
  lemma DeleteFreesName<P>(rows: Rows<P>, id: Id, t1: Time, body: Request<P>, newId: Id, t2: Time)
    requires UniqueActiveNames(rows)
    requires id != "" && id in rows && rows[id].Active() && body.name == rows[id].name && body.name != ""
    requires newId !in rows
    ensures Delete(rows, id, t1).status == OK
    ensures Create(Delete(rows, id, t1).rows, Some(body), newId, t2).status == Created
  {
  }

  /** One request against a table. */
  datatype Op<P> = CreateOp(body: Option<Request<P>>, id: Id, now: Time)
                 | UpdateOp(id: Id, body: Option<Request<P>>, now: Time)
                 | DeleteOp(id: Id, now: Time)

  /** Every create in `ops` is given an identifier not yet in the table, as `uuid.New()` ensures. */
  ghost predicate FreshIds<P>(rows: Rows<P>, ops: seq<Op<P>>)
    decreases |ops|
  {
    ops != [] ==>
      && (ops[0].CreateOp? ==> ops[0].id !in rows)
      && FreshIds(Apply(rows, ops[0]), ops[1..])
  }

  function Apply<P>(rows: Rows<P>, op: Op<P>): (after: Rows<P>)
    requires op.CreateOp? ==> op.id !in rows
  {
    match op
    case CreateOp(body, id, now) => Create(rows, body, id, now).rows
    case UpdateOp(id, body, now) => Update(rows, id, body, now).rows
    case DeleteOp(id, now) => Delete(rows, id, now).rows
  }

  /** Only a successful create changes which identifiers the table holds. */
  lemma OnlyCreateAddsIds<P>(rows: Rows<P>, op: Op<P>)
    requires op.CreateOp? ==> op.id !in rows
    ensures Apply(rows, op).Keys ==
      if op.CreateOp? && Create(rows, op.body, op.id, op.now).status == Created then rows.Keys + {op.id} else rows.Keys
  {
  }

  /** The requests handled one after another. */
  ghost function Run<P>(rows: Rows<P>, ops: seq<Op<P>>): Rows<P>
    requires FreshIds(rows, ops)
    decreases |ops|
  {
    if ops == [] then rows else Run(Apply(rows, ops[0]), ops[1..])
  }

  /**
   * Handled in sequence, any requests keep non-deleted names unique, never remove a row, and never
   * change a deleted one.
   */
  lemma {:induction false} RunKeepsInvariants<P>(rows: Rows<P>, ops: seq<Op<P>>)
    requires FreshIds(rows, ops)
    ensures UniqueActiveNames(rows) ==> UniqueActiveNames(Run(rows, ops))
    ensures rows.Keys <= Run(rows, ops).Keys
    ensures KeepsDeleted(rows, Run(rows, ops))
    decreases |ops|
  {
    if ops != [] {
      var next := Apply(rows, ops[0]);
      RunKeepsInvariants(next, ops[1..]);
    }
  }
}
