# Pizza resource manager — Dafny model

This project models the request handlers of a FastAPI pizza micro-service
(`pizza_routes.py`) and the request/response schemas they use
(`schemas.py`). The service keeps one table of pizzas. Anyone may list it or
read one pizza. Callers holding a token with role `ADMIN` or `STAFF` may
create, update and delete pizzas. A pizza may name an outlet, and the outlet
service is asked whether that outlet exists.

How the model is laid out:

- `wrappers.dfy`, module `Wrappers`: `Option` (Python's `Optional`) and
  `Result` (a handler's response or the `HTTPException` it raises).
- `schemas.dfy`, module `Schemas`: the `PizzaSize` enum with its name and
  value lookups, the create body as sent (`CreateBody`) and its
  validation into `PizzaCreate`, `PizzaUpdate`, and `PizzaResponse`. Each
  body key is `Unset` or `Given`, so "not sent" differs from "sent as null".
  The module also models `str.upper()`.
- `pizza_routes.dfy`, module `PizzaRoutes`:
  - The three read handlers are functions over the table
    (`map<int, Pizza>`): `ListPizzas`, `GetPizza` and `PizzasForOutlet`.
  - The three mutating handlers are methods of the class `PizzaTable`,
    which holds the table and the next id: `Create`, `Update` and `Delete`.
  - `Update` keeps the source's loop over the sent keys. The lemma
    `UpdateLoopIsMerge` proves that this loop equals the field-wise
    reference `Merge`.
  - The JWT library is replaced by a `Credential` input: no header, a
    rejected token, or a decoded token with its role claim.
  - The outlet service is replaced by an `OutletReply` input: an HTTP
    status, or `Unreachable`.
- `properties.dfy`, module `PizzaProperties`: facts that span several
  calls. These cover a read after a create or a delete, empty and
  price-only updates, and two request sequences run against a fresh table.

Points where the code's behaviour is easy to misread:

- `get_pizzas_for_outlet` reads the role claim but never checks it
  (`pizza_routes.py:192-196`). Any valid token is accepted; see
  `ForOutletIgnoresRole`.
- `create_pizza` has no separate header check. A missing header fails
  inside the JWT check, so it gets the same 401 as a bad token.
- An invalid size string never reaches the update handler, because the
  framework validates the body first. `.upper()` then finds the same member
  (`NormalizedSize`). Only an explicit `"size": null` reaches line 134,
  where `None.upper()` raises. That becomes a 500 (`NullSize`), and the
  table is unchanged.
- `outlet_code` is read and written by `create_pizza`
  (`pizza_routes.py:35,52`), but `PizzaCreate` (`schemas.py:12-17`) does
  not declare it. The request model ignores undeclared keys, so as written
  `pizza.outlet_code` at `pizza_routes.py:35` raises `AttributeError`:
  every create that gets past the 401, 403 and 400 checks ends in a 500,
  and nothing is stored. The model follows the route's evident intent
  instead: `outletCode` is part of the create body, the stored row and the
  response.
- `PizzaResponse` (`schemas.py:28-29`) adds only `id` to `PizzaCreate`'s
  fields, so it does not declare `outlet_code` either. The response model
  filters the field out, so as written no response from `get_pizza`,
  `get_pizzas`, `update_pizza` or `get_pizzas_for_outlet` carries an
  outlet code, even for a row that has one.

## Model

| member | source | states |
|---|---|---|
| `Schemas.SizeByName` | schemas.py:6-9 | `PizzaSize[t]` finds the member whose name is `t`, and fails for every string that is no member's name |
| `Schemas.SizeByValue` | schemas.py:6-9 | `PizzaSize(t)` finds the member whose value is `t`, and fails for every string that is no member's value |
| `Schemas.NameIsValue` | schemas.py:6-9 | each member's name equals its value |
| `Schemas.SizeRoundTrip` | schemas.py:6-9 | rendering a size and looking it up again, by value or by name, gives back the same member |
| `Schemas.SizesAreThree` | schemas.py:6-9 | there are exactly three members, with distinct values "SMALL", "MEDIUM", "LARGE" |
| `Schemas.SizeTokens` | schemas.py:6-9 | a string is a size value exactly when it is "SMALL", "MEDIUM" or "LARGE"; anything else is rejected |
| `Schemas.Upper` | pizza_routes.py:134 | `str.upper()` keeps the length and upper-cases each character |
| `Schemas.UpperOfUpperCase` | pizza_routes.py:134 | upper-casing a string with no lower-case letter leaves it unchanged |
| `Schemas.UpperSizeValue` | pizza_routes.py:133-134 | upper-casing a size value leaves it unchanged, and looking it up by value gives back the same member |
| `Schemas.ParseCreate` | schemas.py:12-17 | a create body is accepted exactly when name, price and size are sent non-null and availability is not sent as null; absent description and outlet code become null, absent availability becomes true, and every sent value is kept |
| `Schemas.ParseFullBody` | schemas.py:12-17 | a body sending every field of a create request validates back to that request |
| `Schemas.RequiredFieldsSuffice` | schemas.py:12-17 | a body with only name, price and size is accepted, with description null and availability true |
| `Schemas.WithoutId` | schemas.py:28-29 | a response is a create body plus an integer id: stripping the id succeeds exactly when the size string is a member's value, and keeps every other field |
| `Schemas.ResponseExtendsCreate` | schemas.py:28-29 | a response built from a create body and an id gives that create body back when its id is stripped |
| `PizzaRoutes.OutletCheck` | pizza_routes.py:37-44 | the outlet lookup passes exactly on status 200; any other status is 404 naming the code; a transport failure is 503 |
| `PizzaRoutes.StoredSize` | pizza_routes.py:50 | the lookup by member name on create never fails (it finds a member, so no `KeyError`), and it stores the size that was sent |
| `PizzaRoutes.NormalizedSize` | pizza_routes.py:133-134 | the lookup by upper-cased value on update never fails (it finds a member, so no `ValueError`), and it stores the size that was sent |
| `PizzaRoutes.StoredFrom` | pizza_routes.py:46-53 | the row built on create holds exactly the name, description, price, size, availability and outlet code sent |
| `PizzaRoutes.Respond` | pizza_routes.py:95-103 | a response carries the row's id and fields, with the size as a value string that parses back to the stored size |
| `PizzaRoutes.SortedKeys` | pizza_routes.py:68 | lists every stored id exactly once, in ascending order |
| `PizzaRoutes.RespondAll` | pizza_routes.py:71-82 | one response per listed id, in order, each rendering that id's row |
| `PizzaRoutes.ListPizzas` | pizza_routes.py:63-82 | with no credential, returns one response per stored row: as many as there are rows, every row present, each rendered from its row, ids ascending |
| `PizzaRoutes.GetPizza` | pizza_routes.py:86-103 | 404 exactly when the id is not stored; for a stored id, success with that row rendered with that id |
| `PizzaRoutes.Select` | pizza_routes.py:207-209 | keeps, in order, exactly the listed rows whose outlet code equals the given code or is null |
| `PizzaRoutes.PizzasForOutlet` | pizza_routes.py:182-221 | 401 for a missing or rejected token, whatever the role; then 404 or 503 from the outlet lookup; otherwise exactly the rows that pass the filter at line 208 (`ServesOutlet`: outlet code equal to the given code or null), each once, ids ascending |
| `PizzaRoutes.UpdateLoopIsMerge` | pizza_routes.py:131-137 | the `setattr` loop over the sent keys gives the field-wise merge: each sent field replaced, every other field kept. The keys sent are `UpdateData` (`dict(exclude_unset=True)` in declaration order, with the size converted by `NormalizedSize`); one `setattr` is `SetAttr`, the loop's effect is `ApplyAll`, and the reference is `Merge` |
| `PizzaRoutes.UpdateDataFollowsPatch` | pizza_routes.py:131-134 | `dict(exclude_unset=True)` lists exactly the fields the client sent: each assignment sets a sent field to the value sent (the size after conversion), the fields come in declaration order with none twice, and there is one per sent field |
| `PizzaRoutes.PizzaTable.constructor` | pizza_routes.py:55-57 | a new table is empty and hands out id 1 first; the table invariant (every stored id is below the next id) holds |
| `PizzaRoutes.PizzaTable.Create` | pizza_routes.py:15-59 | 401 for a token that is not decoded, then 403 for a role outside ADMIN/STAFF (`Privileged`, `Authorized`: `role in ["ADMIN", "STAFF"]`, a missing claim being neither), then 400 when some stored row has the same name (`NameInUse`, the query at lines 31-33), then, only when the outlet code is truthy (`LooksUpOutlet`: present and not empty), 404/503 from the outlet lookup; on any error the table and counter are unchanged; on success exactly one fresh id is added, holding the row built from the body, and nothing else changes |
| `PizzaRoutes.PizzaTable.Update` | pizza_routes.py:106-150 | 401 without a header, then 401 for a rejected token, then 403 (`Privileged`), then 404 for an unknown id, then 500 for a null size; on any error the table is unchanged; on success only that id's row changes, to the merge of the sent fields, and names are not checked |
| `PizzaRoutes.PizzaTable.Delete` | pizza_routes.py:153-179 | the same 401/401/403/404 gate; on any error the table is unchanged; on success exactly that id is removed |
| `PizzaProperties.GetAfterCreate` | pizza_routes.py:46-57 | reading a created id returns every field that was sent, with the size rendered as the exact enum string |
| `PizzaProperties.CreatedNameInUse` | pizza_routes.py:31-33 | after a create, its name is in use, so a second create with that name gets 400 |
| `PizzaProperties.ListGrowsByOne` | pizza_routes.py:55-57 | a create adds exactly one entry to the full listing |
| `PizzaProperties.GetAfterDelete` | pizza_routes.py:176-177 | after a delete, reading that id gives 404 and every other id reads as before |
| `PizzaProperties.EmptyUpdateChangesNothing` | pizza_routes.py:131-137 | an update body with no keys leaves the row unchanged |
| `PizzaProperties.PriceOnlyUpdate` | pizza_routes.py:131-137 | an update sending only the price changes the price alone |
| `PizzaProperties.MergeReplacesSentFields` | schemas.py:20-25 | each field is replaced exactly when it is sent; the outlet code, which the update schema lacks, is never replaced |
| `PizzaProperties.RenameIsNotChecked` | pizza_routes.py:127-137 | an update may give a row the name of another row |
| `PizzaProperties.ForOutletIgnoresRole` | pizza_routes.py:192-196 | the outlet listing gives the same answer for every role claim |
| `PizzaProperties.MargheritaTwice` | pizza_routes.py:22-59 | an ADMIN creating "Margherita" (medium, no outlet) on an empty table succeeds with size "MEDIUM" whatever the outlet service would say; the same request again gets 400 |
| `PizzaProperties.CreateDeleteGet` | pizza_routes.py:153-179 | a STAFF create followed by a delete of the new id succeeds and a later read gives 404; a caller with another role is refused with 403 |

## Left out

- JWT decoding (`Authorize.jwt_required`, `get_raw_jwt`) is a library outside this model. Its outcome is the `Credential` input.
- The outlet HTTP call is reduced to its outcome, the `OutletReply` input. That drops the URL built from `OUTLET_SERVICE_BASE_URL`, the defaults (port 8005 in create, 8003 in the outlet listing), the forwarded `Authorization` header and the 5-second timeout. A timeout is one case of `Unreachable`.
- SQLAlchemy sessions (`add`, `commit`, `refresh`, `delete`) become map updates. Id assignment lives in `models.py`, which is not part of this model; a counter that hands out fresh ids stands in for it.
- Name uniqueness under concurrent creates rests on a database constraint in `models.py`, which is not part of this model. Only the sequential pre-check at `pizza_routes.py:31-33` is modelled.
- The same store constraint is not modelled for updates. An update that renames a pizza to a name already in use succeeds in the model (`RenameIsNotChecked`); if the store enforces uniqueness, the commit at `pizza_routes.py:139` would fail instead.
- `PizzaRoutes.PizzaTable.Create` follows the route's evident intent and reads `outletCode` from the body. As written, `PizzaCreate` does not declare `outlet_code`, so the read at `pizza_routes.py:35` raises `AttributeError` and every create that passes the 401/403/400 checks ends in a 500 with nothing stored; that crash is not modelled.
- `models.PizzaSize` (in `models.py`) is taken to have the same three members as `schemas.PizzaSize`.
- Price is a float. It is carried as its 64-bit pattern, with no arithmetic and no range check.
- The database returns rows in an unspecified order. The model lists them by ascending id.
- In an update, an explicit null for `name`, `price` or `availability` is not modelled. Its outcome depends on column constraints in `models.py`. An explicit null `description` clears it, and an explicit null `size` is the 500 described above.
- `PizzaRoutes.Respond`: the model's responses carry `outletCode`, but the service's never do. `PizzaResponse` does not declare `outlet_code`, and the response model drops it (`schemas.py:28-29`).
- `PizzaRoutes.PizzaTable.Delete` returns the deleted id, not the formatted confirmation message. The detail strings of the errors are not modelled either; each error is one `ApiError` variant, and `StatusCode` gives its HTTP status.
- `Schemas.Upper` maps only ASCII letters, not full Unicode case mapping. Only enum values, which are ASCII, are ever upper-cased.
- Framework behaviour is not modelled beyond `ParseCreate`'s required-field and default rules: type coercion in body validation, `jsonable_encoder` and response-model serialisation, and the `print` calls.
- `get_pizzas` and `get_pizza` accept an `Authorization` header but never use it. The model's read functions take no credential.
