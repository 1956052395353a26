/**
 * Properties that relate several handler calls: what a later read sees
 * after a create, update or delete, and two request sequences run against
 * a fresh table.
 */
module PizzaProperties {
  import opened Wrappers
  import opened Schemas
  import opened PizzaRoutes

  /** After a create, reading its id gives back every field sent, the size as its exact enum string. */
  lemma GetAfterCreate(rows: Table, id: int, c: PizzaCreate)
    ensures GetPizza(rows[id := StoredFrom(c)], id).Success?
    ensures GetPizza(rows[id := StoredFrom(c)], id).value.id == id
    ensures GetPizza(rows[id := StoredFrom(c)], id).value.size == SizeValue(c.size)
    ensures WithoutId(GetPizza(rows[id := StoredFrom(c)], id).value) == Some(c)
  {
  }

  /** After a create, its name is in use, so a second create with that name gets 400. */
  lemma CreatedNameInUse(rows: Table, id: int, c: PizzaCreate)
    ensures NameInUse(rows[id := StoredFrom(c)], c.name)
  {
    assert rows[id := StoredFrom(c)][id].name == c.name;
  }

  /** A create adds exactly one entry to the full listing. */
  lemma ListGrowsByOne(rows: Table, id: int, c: PizzaCreate)
    requires id !in rows
    ensures |ListPizzas(rows[id := StoredFrom(c)])| == |ListPizzas(rows)| + 1
  {
  }

  /** After a delete, reading that id gives 404 and every other id reads as before. */
  lemma GetAfterDelete(rows: Table, id: int, other: int)
    ensures GetPizza(rows - {id}, id) == Failure(PizzaNotFound)
    ensures other != id ==> GetPizza(rows - {id}, other) == GetPizza(rows, other)
  {
  }

  /** An update body with no keys leaves the row as it was. */
  lemma EmptyUpdateChangesNothing(p: Pizza)
    ensures Merge(p, NoChanges) == p
  {
  }

  /** An update sending only the price changes the price and nothing else. */
  lemma PriceOnlyUpdate(p: Pizza, price: Price)
    ensures Merge(p, NoChanges.(price := Given(price))) == p.(price := price)
  {
  }

  /** A field is replaced exactly when it is sent; the outlet code is never replaced. */
  lemma MergeReplacesSentFields(p: Pizza, patch: PizzaUpdate)
    requires patch.size != Given(None)
    ensures Merge(p, patch).name == (if patch.name.Given? then patch.name.value else p.name)
    ensures Merge(p, patch).description == (if patch.description.Given? then patch.description.value else p.description)
    ensures Merge(p, patch).price == (if patch.price.Given? then patch.price.value else p.price)
    ensures Merge(p, patch).size == (if patch.size.Given? then patch.size.value.value else p.size)
    ensures Merge(p, patch).availability == (if patch.availability.Given? then patch.availability.value else p.availability)
    ensures Merge(p, patch).outletCode == p.outletCode
  {
  }

  /** An update may give a row the name of another row: the update route does not check names. */
  lemma RenameIsNotChecked(rows: Table, id: int, other: int)
    requires id in rows && other in rows && id != other
    ensures var after := rows[id := Merge(rows[id], NoChanges.(name := Given(rows[other].name)))];
            after[id].name == after[other].name
  {
  }

  /** The outlet listing answers the same for every role: only the token's validity matters. */
  lemma ForOutletIgnoresRole(rows: Table, r1: Option<string>, r2: Option<string>, code: string, reply: OutletReply)
    ensures PizzasForOutlet(rows, Decoded(r1), code, reply) == PizzasForOutlet(rows, Decoded(r2), code, reply)
  {
  }

  /**
   * Creating "Margherita" (medium, no outlet) as ADMIN on an empty table
   * succeeds with size "MEDIUM" whatever the outlet service would say;
   * repeating the request gets 400.
   */
  method MargheritaTwice(price: Price, reply: OutletReply)
    returns (first: Result<PizzaResponse, ApiError>, second: Result<PizzaResponse, ApiError>)
    ensures first.Success? && first.value.name == "Margherita" && first.value.size == "MEDIUM"
    ensures second == Failure(NameTaken) && StatusCode(second.error) == 400
  {
    var table := new PizzaTable();
    var body := ParseCreate(CreateBody(Given(Some("Margherita")), Unset, Given(Some(price)),
                                       Given(Some(MEDIUM)), Unset, Unset)).value;
    first := table.Create(Decoded(Some("ADMIN")), body, reply);
    CreatedNameInUse(map[], 1, body);
    second := table.Create(Decoded(Some("ADMIN")), body, reply);
  }

  /**
   * A STAFF caller creates a pizza and deletes it; reading its id then
   * gives 404, and a CUSTOMER caller could do neither.
   */
  method CreateDeleteGet(c: PizzaCreate)
    returns (created: Result<PizzaResponse, ApiError>, denied: Result<int, ApiError>,
             deleted: Result<int, ApiError>, read: Result<PizzaResponse, ApiError>)
    requires !LooksUpOutlet(c.outletCode)
    ensures created.Success? && WithoutId(created.value) == Some(c)
    ensures denied == Failure(Forbidden)
    ensures deleted == Success(created.value.id)
    ensures read == Failure(PizzaNotFound)
  {
    var table := new PizzaTable();
    var staff := Decoded(Some("STAFF"));
    created := table.Create(staff, c, Unreachable);
    denied := table.Delete(Decoded(Some("CUSTOMER")), created.value.id);
    deleted := table.Delete(staff, created.value.id);
    read := GetPizza(table.rows, created.value.id);
  }
}
