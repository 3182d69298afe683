/**
 * DELETE /api/items-ingredients: a hard delete from the join table `tm_item_ingredient`. The
 * table has no key of its own, so it is a multiset of (item, ingredient) pairs; the statement
 * removes every copy of the requested pair and the handler branches on how many it removed.
 */
module ItemIngredients {
  import opened Wrappers


  datatype Pair = Pair(item: Id, ingredient: Id)

  /** The decoded body `{uuid_item, uuid_ingredient}`. */
  datatype DeleteRequest = DeleteRequest(uuidItem: Id, uuidIngredient: Id)

  datatype Outcome = Outcome(status: Status, pairs: multiset<Pair>)

  predicate WellFormed(body: Option<DeleteRequest>)
  {
    body.Some? && body.value.uuidItem != "" && body.value.uuidIngredient != ""
  }

  function Target(body: DeleteRequest): (p: Pair)
  {
    Pair(body.uuidItem, body.uuidIngredient)
  }

  /** The effect of the handler on the join table. */
  function DeletePairs(pairs: multiset<Pair>, body: Option<DeleteRequest>): (o: Outcome)
    ensures o.status == OK || o.status == BadRequest || o.status == NotFound
    ensures o.status == BadRequest <==> !WellFormed(body)
    ensures o.status == NotFound <==> WellFormed(body) && Target(body.value) !in pairs
    ensures o.status != OK ==> o.pairs == pairs
    ensures WellFormed(body) ==> var p := Target(body.value);
      && o.pairs[p] == 0
      && (forall q :: q != p ==> o.pairs[q] == pairs[q])
      && |o.pairs| == |pairs| - pairs[p]
  {
    if !WellFormed(body) then Outcome(BadRequest, pairs)
    else
      var p := Target(body.value);
      var affected := pairs[p];
      if affected == 0 then Outcome(NotFound, pairs) else Outcome(OK, pairs[p := 0])
  }

  /** After a successful delete nothing matches any more, so repeating it answers 404. */
  lemma RepeatDeleteNotFound(pairs: multiset<Pair>, body: DeleteRequest)
    requires DeletePairs(pairs, Some(body)).status == OK
    ensures DeletePairs(DeletePairs(pairs, Some(body)).pairs, Some(body)).status == NotFound
  {
  }

  /** The join table, updated in place. */
  class Associations {
    var pairs: multiset<Pair>

    constructor (initial: multiset<Pair>)
      ensures pairs == initial
    {
      pairs := initial;
    }

    method Delete(body: Option<DeleteRequest>) returns (status: Status)
      modifies this
      ensures Outcome(status, pairs) == DeletePairs(old(pairs), body)
    {
      if body.None? {
        return BadRequest;
      }
      var req := body.value;
      if req.uuidItem == "" || req.uuidIngredient == "" {
        return BadRequest;
      }
      var p := Pair(req.uuidItem, req.uuidIngredient);
      var affected := pairs[p];
      pairs := pairs[p := 0];
      if affected == 0 {
        return NotFound;
      }
      return OK;
    }
  }
}
