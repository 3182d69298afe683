# Menu items and ingredients API — a Dafny model of its request handlers

The system is a small HTTP API, written in Go with Fiber, over three PostgreSQL tables:
`tm_ingredient`, `tm_item` and the join table `tm_item_ingredient`. The model covers what its
handlers decide:

- the list endpoints (`GET /api/ingredients`, `GET /api/items`): how the `limit`, `page` and `offset`
  query strings become the `LIMIT`/`OFFSET` of the query and the `meta` of the answer, which rows are
  listed and in what order, and what `total` counts;
- create, update and soft delete of ingredients and items: the 400/404/409/200/201 answer and the table
  afterwards;
- the hard delete of item–ingredient pairs (`DELETE /api/items-ingredients`).

Each SQL statement is replaced by its effect on an in-memory table. The two entity tables differ
only in their payload columns, so one generic table serves both:

- `wrappers.dfy` (`Wrappers`): the identifier type, `Option` and the HTTP statuses.
- `pagination.dfy` (`Pagination`): Go's `strconv.Atoi` with its error discarded, 64-bit wrap-around,
  and the parameter resolution.
- `id_order.dfy` (`IdOrder`): the descending identifier order of `ORDER BY uuid DESC`.
- `soft_table.dfy` (`SoftTable`): rows, and the functions that say what each handler does to them,
  with the properties that hold across calls.
- `entity_handler.dfy` (`EntityHandler`): the class `Table<P>` whose methods change the rows in place,
  step by step as the handlers do. Each is proved to equal the matching `SoftTable` function.
- `entities.dfy` (`Ingredient`, `Item`): the two payloads and worked examples.
- `item_ingredients.dfy` (`ItemIngredients`): the join table as a multiset of pairs, and its delete.

Modelling choices:

- Go's `int` is taken to be 64 bits wide.
  - `strconv.Atoi` accepts an optional sign followed by at least one ASCII digit.
  - An out-of-range number gives the nearest 64-bit bound, which is what `ParseInt` returns alongside its range error.
  - So does a string whose leading digits, after the optional sign, overflow an unsigned 64-bit
    value before the first non-digit. `ParseUint` returns its range error at that digit without
    reading the rest, so `18446744073709551616x` gives the largest 64-bit integer.
  - Anything else gives 0, because the handlers ignore the error.
  - `limit*page - limit` wraps around as Go's arithmetic does.
- A query parameter that is empty and one that is absent are the same: `c.Query` returns `""` for both.
- A request body that does not decode is `None` and answers 400.
- A fresh UUID and the current time are inputs. `Create` requires the identifier not to be in the
  table already, which `uuid.New()` makes so.
- The database orders identifiers by its collation. Here they are compared code point by code point.
  The model relies only on this being a strict total order.
- PostgreSQL rejects a negative `LIMIT` or `OFFSET`, and the handler then answers 500. The model
  answers `ListFailed` in that case, and states paging only for non-negative values.

A non-numeric parameter does not fall back to its default. The handlers keep what `Atoi`
returns, which is 0:
- `limit=abc` lists with `LIMIT 0`, not 10 rows;
- `page=abc` resolves to page 0, not 1, and to the offset `-limit`. With any positive limit that offset
  is negative, so the list answers 500 (`ListFailed`). A listing reports page 0 only when the limit is 0.

## Model

| member | source | states |
|---|---|---|
| Pagination.Atoi | handlers/ingredient_handler.go:24-25 | result is a 64-bit int; an in-range decimal gives its value; an out-of-range decimal, or leading digits that overflow uint64 before a non-digit, saturate by sign; any other string gives 0 |
| Pagination.AtoiItoa | handlers/ingredient_handler.go:25 | `Atoi` inverts `Itoa` on every 64-bit integer |
| Pagination.Wrap64 | handlers/ingredient_handler.go:35 | result is in the 64-bit range, congruent to the input modulo 2^64, and equals it when it already fits |
| Pagination.PageOffset | handlers/ingredient_handler.go:35 | the wrapped `limit*page - limit` is a 64-bit int; without overflow it is limit*(page-1), non-negative for limit >= 0 and page >= 1 |
| Pagination.Resolve | handlers/ingredient_handler.go:19-36 | limit defaults to 10 and is clamped above at 1000 only; page defaults to 1 and is echoed as parsed; a present page sets offset to limit*page-limit (wrapped), otherwise offset is the parsed offset or 0 |
| Pagination.ResolveDefaults | handlers/ingredient_handler.go:19-22 | no query parameters give limit 10, offset 0, page 1 |
| Pagination.LimitPassesThrough | handlers/ingredient_handler.go:24-29 | every limit up to 1000 passes unchanged, 0 and negatives included |
| Pagination.LimitClamped | handlers/ingredient_handler.go:24-29 | the decimal digits of any limit above 1000, 64-bit or wider, resolve to exactly 1000 |
| Pagination.PageOverridesOffset | handlers/ingredient_handler.go:30-36 | when page is present, the offset parameter has no effect on the resolution |
| Pagination.PageStart | handlers/ingredient_handler.go:33-36 | without overflow, page k starts at limit*(k-1), which is non-negative for limit >= 0 and page >= 1 |
| Pagination.NonNumericIsZero | handlers/ingredient_handler.go:24-32 | a non-numeric limit (one whose leading digits do not overflow) gives 0, not 10; such an offset gives 0 |
| Pagination.NonNumericPage | handlers/ingredient_handler.go:33-35 | a non-numeric page (one whose leading digits do not overflow) resolves to page 0 and offset -limit (wrapped) |
| Pagination.OverflowingPrefix | handlers/ingredient_handler.go:25 | digits above 2^64-1 followed by a non-digit (or nothing) give the largest 64-bit integer, and after a `-` the smallest |
| Pagination.OverflowingLimitClamped | handlers/ingredient_handler.go:24-29 | a limit whose leading digits overflow before a non-digit resolves to 1000, not 0 |
| Pagination.ResolveExamples | handlers/item_handler.go:30-36 | page=2&limit=5 gives offset 5; offset=7 alone gives 7; with both, page wins |
| IdOrder.BelowTotal | handlers/ingredient_handler.go:42 | two distinct identifiers are ordered one way or the other |
| IdOrder.BelowTransitive | handlers/ingredient_handler.go:42 | the identifier order is transitive |
| IdOrder.GreatestExists | handlers/ingredient_handler.go:42 | every non-empty set of identifiers has a greatest element |
| IdOrder.SortedDesc | handlers/ingredient_handler.go:38-44 | the enumeration has exactly the set's elements, one each, strictly descending |
| SoftTable.NonNumericPageFails | handlers/ingredient_handler.go:33-46 | a non-numeric page with a positive limit gives a negative offset, so the listing fails (500) rather than reporting page 0 |
| SoftTable.ListedIds | handlers/ingredient_handler.go:38-44 | the listed identifiers are exactly the non-deleted ones, strictly descending |
| SoftTable.Page | handlers/ingredient_handler.go:38-66 | at most `limit` entries; their number is min(limit, active - offset); entry k is the non-deleted row at position offset+k of the descending order, with its name and payload |
| SoftTable.List | handlers/item_handler.go:13-80 | fails exactly when the resolved limit or offset is negative; otherwise meta echoes page and limit, total counts all non-deleted rows whatever the paging, and data is the LIMIT/OFFSET window of the non-deleted rows, at most limit of them, in strictly descending id order |
| SoftTable.Create | handlers/ingredient_handler.go:83-138 | 400 exactly for a missing body or empty name; 409 exactly when a non-deleted row has the name; both leave the table unchanged; 201 adds exactly one fresh non-deleted row and changes nothing else; active names stay unique and deleted rows are kept |
| SoftTable.Update | handlers/ingredient_handler.go:140-215 | 400 for an empty uuid or name; 409 exactly when another non-deleted row has the name; 200 exactly when the row exists and is not deleted, changing only its name, payload and updated time; otherwise 404; no id added or removed; unique active names kept |
| SoftTable.Delete | handlers/ingredient_handler.go:217-251 | 400 for an empty uuid; 200 exactly for a non-deleted row, which stays in the table with its deleted time set; otherwise 404 and no change; every other row unchanged |
| SoftTable.DeleteTwiceNotFound | handlers/ingredient_handler.go:227-246 | deleting the same id a second time answers 404 and changes nothing |
| SoftTable.UpdateKeepingOwnName | handlers/ingredient_handler.go:169-177 | with unique active names, an update that keeps the row's own name is not a conflict |
| SoftTable.UpdateConflictBeforeNotFound | handlers/ingredient_handler.go:169-210 | a clashing name on a missing id answers 409, not 404 |
| SoftTable.CreatedIsListed | handlers/ingredient_handler.go:124-129 | a created row is among the listed ids, and the one-row page at its position shows its name and payload |
| SoftTable.CreateUpdateRoundTrip | handlers/ingredient_handler.go:189-199 | create then update leaves the row listed; the page at its position shows the updated name and payload, not the original ones |
| SoftTable.DeleteFreesName | handlers/ingredient_handler.go:105-122 | once the holder of a name is deleted, creating that name again succeeds |
| SoftTable.OnlyCreateAddsIds | handlers/item_handler.go:122-229 | only a successful create changes the set of ids in the table |
| SoftTable.RunKeepsInvariants | handlers/item_handler.go:82-247 | any sequence of requests keeps active names unique, removes no row, and leaves deleted rows unchanged |
| EntityHandler.Table.Get | handlers/ingredient_handler.go:13-81 | answers exactly `List` of the current rows |
| EntityHandler.Table.Fetch | handlers/ingredient_handler.go:50-66 | the append loop yields exactly `Page` |
| EntityHandler.Table.Create | handlers/item_handler.go:82-136 | status and new rows are exactly those of `SoftTable.Create` on the old rows |
| EntityHandler.Table.Update | handlers/item_handler.go:138-211 | status and new rows are exactly those of `SoftTable.Update` on the old rows |
| EntityHandler.Table.Delete | handlers/item_handler.go:213-247 | status and new rows are exactly those of `SoftTable.Delete` on the old rows |
| Ingredient.RecreateAfterDelete | handlers/ingredient_handler.go:105-137 | create, delete, create the same name: 201, 200, 201 |
| Item.ColaTwice | handlers/item_handler.go:97-135 | posting the same item twice: 201, then 409 with the table unchanged |
| ItemIngredients.DeletePairs | handlers/item_ingredients_handler.go:9-51 | 400 exactly when either uuid is empty or the body is missing; 404 exactly when no pair matches, with no change; otherwise no matching pair remains, other pairs are untouched, and the size drops by the number removed |
| ItemIngredients.RepeatDeleteNotFound | handlers/item_ingredients_handler.go:30-47 | after a successful delete, repeating it answers 404 |
| ItemIngredients.Associations.Delete | handlers/item_ingredients_handler.go:30-51 | status and new pairs are exactly those of `DeletePairs` on the old pairs |

## Left out

- HTTP plumbing is not modelled: routing, `c.Query`/`c.Params`, JSON decoding and encoding, and
  response maps. Decoded values are inputs and statuses are outputs. `routes/ingredient_routes.go`,
  `config/database.go` and `main.go` are wiring and are not part of this model.
- Database failures (the 500 answers) are left out. The one exception is a negative `LIMIT`/`OFFSET`,
  which is `ListFailed`. The ignored error of the `COUNT(*)` query is ignored here too.
- `uuid.New()`, `time.Now()` and `NOW()` are inputs. A clock reading is an opaque integer.
- The `float64` price is kept as its bit pattern. No arithmetic is done on it.
- The check-then-write race between concurrent requests is not modelled. Requests are handled one
  at a time, so the model cannot show two concurrent creates both passing the name check.
- The database's collation for `ORDER BY uuid DESC` is replaced by code-point order.
- An empty page is encoded as JSON `null` by Go (a nil slice). The model returns an empty sequence.
- The response message texts are not modelled. 404 for "never existed" and 404 for "already deleted"
  differ only in their text.
