/**
 * The entity handlers as a table object whose rows the write handlers change in place. Each
 * method follows the handler step by step (validation, the `COUNT(*)` name check, the statement
 * and its affected-row count) and is proved to produce exactly the status and the table that the
 * corresponding `SoftTable` function describes.
 */
module EntityHandler {
  import opened Wrappers
  import opened SoftTable
  import Pagination

  class Table<P> {
    var rows: Rows<P>

    constructor (initial: Rows<P>)
      ensures rows == initial
    {
      rows := initial;
    }

    /** GET: the page of non-deleted rows in descending id order, and their total. */
    method Get(q: Pagination.Query) returns (r: Listing<P>)
      ensures r == List(rows, q)
    {
      var p := Pagination.Resolve(q);
      if p.limit < 0 || p.offset < 0 {
        return ListFailed;
      }
      var data := Fetch(p.limit, p.offset);
      var total := |ActiveIds(rows)|;
      r := Listing(data, Meta(p.page, p.limit, total));
    }

    /** The `rows.Next()` loop: append each row the `LIMIT`/`OFFSET` query yields. */
    method Fetch(limit: nat, offset: nat) returns (data: seq<Entry<P>>)
      ensures data == Page(rows, limit, offset)
    {
      ghost var page := Page(rows, limit, offset);
      var ids := ListedIds(rows);
      var lo := Pagination.Min(offset, |ids|);
      var hi := Pagination.Min(offset + limit, |ids|);
      data := [];
      var i := lo;
      while i < hi
        invariant lo <= i <= hi
        invariant |data| == i - lo
        invariant forall k :: 0 <= k < |data| ==> data[k] == page[k]
      {
        var id := ids[i];
        data := data + [Entry(id, rows[id].name, rows[id].payload)];
        i := i + 1;
      }
    }

    /** POST. */
    method Create(body: Option<Request<P>>, id: Id, now: Time) returns (status: Status)
      requires id !in rows
      modifies this
      ensures Outcome(status, rows) == SoftTable.Create(old(rows), body, id, now)
    {
      if body.None? {
        return BadRequest;
      }
      var req := body.value;
      if req.name == "" {
        return BadRequest;
      }
      var clashes := set k | k in rows && rows[k].Active() && rows[k].name == req.name;
      assert forall k :: k in rows && rows[k].Active() && rows[k].name == req.name ==> k in clashes;
      if |clashes| > 0 {
        return Conflict;
      }
      assert clashes == {};
      rows := rows[id := Row(req.name, req.payload, now, None, None)];
      return Created;
    }

    /** PUT /:uuid. */
    method Update(id: Id, body: Option<Request<P>>, now: Time) returns (status: Status)
      modifies this
      ensures Outcome(status, rows) == SoftTable.Update(old(rows), id, body, now)
    {
      if id == "" {
        return BadRequest;
      }
      if body.None? {
        return BadRequest;
      }
      var req := body.value;
      if req.name == "" {
        return BadRequest;
      }
      var clashes := set k | k in rows && k != id && rows[k].Active() && rows[k].name == req.name;
      assert forall k :: k in rows && k != id && rows[k].Active() && rows[k].name == req.name ==> k in clashes;
      if |clashes| > 0 {
        return Conflict;
      }
      assert clashes == {};
      var affected := if id in rows && rows[id].Active() then 1 else 0;
      if affected > 0 {
        rows := rows[id := rows[id].(name := req.name, payload := req.payload, updatedAt := Some(now))];
      }
      if affected == 0 {
        return NotFound;
      }
      return OK;
    }

    /** DELETE /:uuid (soft). */
    method Delete(id: Id, now: Time) returns (status: Status)
      modifies this
      ensures Outcome(status, rows) == SoftTable.Delete(old(rows), id, now)
    {
      if id == "" {
        return BadRequest;
      }
      var affected := if id in rows && rows[id].Active() then 1 else 0;
      if affected > 0 {
        rows := rows[id := rows[id].(deletedAt := Some(now))];
      }
      if affected == 0 {
        return NotFound;
      }
      return OK;
    }
  }
}
