/** The ingredient table: `tm_ingredient` with the columns `cause_alergy`, `type` and `status`. */
module Ingredient {
  import opened Wrappers
  import opened SoftTable

  datatype Attributes = Attributes(causeAlergy: bool, kind: int, status: int)

  /** Create "Salt", delete it, create "Salt" again: 201, 200, 201. */
  lemma RecreateAfterDelete(rows: Rows<Attributes>, first: Id, second: Id, attrs: Attributes, t1: Time, t2: Time, t3: Time)
    requires !NameInUse(rows, "Salt")
    requires first != "" && first !in rows && second !in rows && second != first
    ensures var r1 := Create(rows, Some(Request("Salt", attrs)), first, t1);
      && r1.status == Created
      && Delete(r1.rows, first, t2).status == OK
      && Create(Delete(r1.rows, first, t2).rows, Some(Request("Salt", attrs)), second, t3).status == Created
  {
  }
}

/** The item table: `tm_item` with the columns `price` and `status`. */
module Item {
  import opened Wrappers
  import opened SoftTable

  /** A `float64` kept as its IEEE 754 bit pattern; the handlers do no arithmetic on prices. */
  datatype Float64 = Float64(bits: bv64)

  datatype Attributes = Attributes(price: Float64, status: int)

  /** `{"name":"Cola","price":2.5,"status":1}` posted twice: 201, then 409 with nothing changed. */
  lemma ColaTwice(rows: Rows<Attributes>, first: Id, second: Id, t1: Time, t2: Time)
    requires !NameInUse(rows, "Cola")
    requires first !in rows && second !in rows && second != first
    ensures var cola := Request("Cola", Attributes(Float64(0x4004_0000_0000_0000), 1));
      var r1 := Create(rows, Some(cola), first, t1);
      && r1.status == Created
      && Create(r1.rows, Some(cola), second, t2) == Outcome(Conflict, r1.rows)
  {
  }
}
