/**
 * The pizza request handlers. The database is a table from id to stored
 * row plus an id counter; the JWT library and the outlet service are
 * replaced by their outcomes, given as inputs.
 *
 * Queries (list, get, list for an outlet) are functions over the table;
 * create, update and delete are methods of `PizzaTable` that change it.
 */
module PizzaRoutes {
  import opened Wrappers
  import opened Schemas

  /**
   * What the caller's credential turned out to be: no (or an empty)
   * `Authorization` header, a token the JWT library rejects, or a decoded
   * token with the value of its `role` claim, if any.
   */
  datatype Credential = NoHeader | Rejected | Decoded(role: Option<string>)

  /** The outcome of `GET /outlet/by-code/{code}`: an HTTP status, or a transport failure or timeout. */
  datatype OutletReply = Reply(status: int) | Unreachable

  /** The `HTTPException`s the handlers raise, plus the crash on a null `size` in an update. */
  datatype ApiError =
    | TokenRequired            // 401 "Authorization token required"
    | InvalidToken             // 401 "Unauthorized" / "Invalid or expired token"
    | Forbidden                // 403 "Only Admin and Staff can ..."
    | NameTaken                // 400 "Pizza already exists"
    | PizzaNotFound            // 404 "Pizza not found"
    | OutletNotFound(code: string)  // 404 "Outlet with code '...' not found"
    | OutletUnavailable        // 503 "Failed to communicate with outlet service"
    | NullSize                 // 500: `None.upper()` raises AttributeError

  /** The HTTP status code each error is answered with. */
  function StatusCode(e: ApiError): int {
    match e
    case TokenRequired => 401
    case InvalidToken => 401
    case Forbidden => 403
    case NameTaken => 400
    case PizzaNotFound => 404
    case OutletNotFound(_) => 404
    case OutletUnavailable => 503
    case NullSize => 500
  }

  /** A stored row of the pizza table; its id is the table key. */
  datatype Pizza = Pizza(
    name: string,
    description: Option<string>,
    price: Price,
    size: PizzaSize,
    availability: bool,
    outletCode: Option<string>)

  type Table = map<int, Pizza>

  /** `role in ["ADMIN", "STAFF"]`; a missing claim is neither. */
  predicate Privileged(role: Option<string>) {
    role == Some("ADMIN") || role == Some("STAFF")
  }

  /** The caller passes the role gate of the mutating handlers. */
  predicate Authorized(cred: Credential) {
    cred.Decoded? && Privileged(cred.role)
  }

  /** Some stored row already has this exact name. */
  predicate NameInUse(rows: Table, name: string) {
    exists id :: id in rows && rows[id].name == name
  }

  /** `if pizza.outlet_code:` — a code that is present and not the empty string. */
  predicate LooksUpOutlet(code: Option<string>) {
    code.Some? && code.value != ""
  }

  /** The verdict on an outlet lookup: `None` lets the request go on. */
  function OutletCheck(code: string, reply: OutletReply): (r: Option<ApiError>)
    ensures r == None <==> reply == Reply(200)
    ensures reply.Unreachable? ==> r == Some(OutletUnavailable)
    ensures reply.Reply? && reply.status != 200 ==> r == Some(OutletNotFound(code))
  {
    match reply
    case Unreachable => Some(OutletUnavailable)
    case Reply(status) => if status != 200 then Some(OutletNotFound(code)) else None
  }

  /** `models.PizzaSize[pizza.size.name]`: the create route's conversion to the stored enum. */
  function StoredSize(s: PizzaSize): (r: PizzaSize)
    ensures SizeByName(SizeName(s)) == Some(r) && r == s
  {
    SizeRoundTrip(s);
    match SizeByName(SizeName(s))
    case Some(t) => t
    case None => assert false; s
  }

  /** `models.PizzaSize(value.upper())`: the update route's conversion to the stored enum. */
  function NormalizedSize(s: PizzaSize): (r: PizzaSize)
    ensures SizeByValue(Upper(SizeValue(s))) == Some(r) && r == s
  {
    UpperSizeValue(s);
    match SizeByValue(Upper(SizeValue(s)))
    case Some(t) => t
    case None => assert false; s
  }

  /** The row the create route builds from a request body. */
  function StoredFrom(c: PizzaCreate): (p: Pizza)
    ensures p == Pizza(c.name, c.description, c.price, c.size, c.availability, c.outletCode)
  {
    Pizza(c.name, c.description, c.price, StoredSize(c.size), c.availability, c.outletCode)
  }

  /** The response for a stored row: its fields, with the size rendered as its value string. */
  function Respond(id: int, p: Pizza): (r: PizzaResponse)
    ensures r.id == id
    ensures WithoutId(r) == Some(PizzaCreate(p.name, p.description, p.price, p.size, p.availability, p.outletCode))
  {
    ResponseExtendsCreate(id, PizzaCreate(p.name, p.description, p.price, p.size, p.availability, p.outletCode));
    PizzaResponse(id, p.name, p.description, p.price, SizeValue(p.size), p.availability, p.outletCode)
  }

  // ---------------------------------------------------------------------
  // Queries

  /** The least element of a non-empty finite set of ids exists. */
  lemma {:induction false} MinExists(s: set<int>)
    requires s != {}
    ensures exists m :: m in s && forall x :: x in s ==> m <= x
  {
    if forall x :: x !in s {
      assert false;
    }
    var y :| y in s;
    if s != {y} {
      var rest := s - {y};
      MinExists(rest);
      var m :| m in rest && forall x :: x in rest ==> m <= x;
      var least := if y < m then y else m;
      forall x | x in s ensures least <= x {
        if x != y { assert x in rest; }
      }
      assert least in s;
    } else {
      assert forall x :: x in s ==> y <= x;
    }
  }

  /** Ids in strictly ascending order. */
  predicate Ascending(ids: seq<int>) {
    forall i, j :: 0 <= i < j < |ids| ==> ids[i] < ids[j]
  }

  /** `r` lists every element of `s`, and nothing else, in ascending order. */
  predicate ListsInOrder(s: set<int>, r: seq<int>) {
    && |r| == |s|
    && (forall i :: 0 <= i < |r| ==> r[i] in s)
    && (forall x :: x in s ==> x in r)
    && Ascending(r)
  }

  /** Putting the least element in front of an ascending listing of the others lists the whole set. */
  lemma ConsLeast(m: int, s: set<int>, rest: seq<int>)
    requires m in s && forall x :: x in s ==> m <= x
    requires ListsInOrder(s - {m}, rest)
    ensures ListsInOrder(s, [m] + rest)
  {
    var r := [m] + rest;
    assert forall x :: x in s ==> x in r by {
      forall x | x in s ensures x in r {
        if x != m { assert x in s - {m}; }
      }
    }
    assert forall i :: 0 <= i < |r| ==> r[i] in s by {
      forall i | 0 <= i < |r| ensures r[i] in s {
        if i > 0 { assert r[i] == rest[i - 1]; }
      }
    }
    assert Ascending(r) by {
      forall i, j | 0 <= i < j < |r| ensures r[i] < r[j] {
        assert r[j] == rest[j - 1];
        assert rest[j - 1] in s - {m};
        if i > 0 { assert r[i] == rest[i - 1]; }
      }
    }
  }

  /** The ids of a set, ascending: the order in which the table's rows are listed. */
  function SortedKeys(s: set<int>): (r: seq<int>)
    ensures ListsInOrder(s, r)
    decreases |s|
  {
    if s == {} then []
    else
      MinExists(s);
      var m :| m in s && forall x :: x in s ==> m <= x;
      var rest := SortedKeys(s - {m});
      ConsLeast(m, s, rest);
      [m] + rest
  }

  /** Responses in strictly ascending order of id. */
  predicate AscendingIds(rs: seq<PizzaResponse>) {
    forall i, j :: 0 <= i < j < |rs| ==> rs[i].id < rs[j].id
  }

  /** Every response renders the stored row under its id. */
  predicate FromRows(rows: Table, rs: seq<PizzaResponse>) {
    forall k :: 0 <= k < |rs| ==> rs[k].id in rows && rs[k] == Respond(rs[k].id, rows[rs[k].id])
  }

  /** Some response carries this id. */
  predicate HasId(rs: seq<PizzaResponse>, id: int) {
    exists k :: 0 <= k < |rs| && rs[k].id == id
  }

  /** The responses for the listed ids, in the listed order. */
  function RespondAll(rows: Table, ids: seq<int>): (r: seq<PizzaResponse>)
    requires forall i :: 0 <= i < |ids| ==> ids[i] in rows
    ensures |r| == |ids|
    ensures forall k :: 0 <= k < |r| ==> r[k].id == ids[k] && r[k] == Respond(ids[k], rows[ids[k]])
  {
    seq(|ids|, i requires 0 <= i < |ids| => Respond(ids[i], rows[ids[i]]))
  }

  /** `GET /pizza/`: one response per stored row, in ascending id order; no credential needed. */
  function ListPizzas(rows: Table): (r: seq<PizzaResponse>)
    ensures |r| == |rows|
    ensures FromRows(rows, r)
    ensures forall id :: id in rows ==> HasId(r, id)
    ensures AscendingIds(r)
  {
    var ids := SortedKeys(rows.Keys);
    var r := RespondAll(rows, ids);
    assert FromRows(rows, r) by {
      forall k | 0 <= k < |r| ensures r[k].id in rows && r[k] == Respond(r[k].id, rows[r[k].id]) {
        assert r[k].id == ids[k];
      }
    }
    assert forall id :: id in rows ==> HasId(r, id) by {
      forall id | id in rows ensures HasId(r, id) {
        var i :| 0 <= i < |ids| && ids[i] == id;
        assert r[i].id == id;
      }
    }
    assert AscendingIds(r) by {
      forall i, j | 0 <= i < j < |r| ensures r[i].id < r[j].id {
        assert r[i].id == ids[i] && r[j].id == ids[j];
      }
    }
    r
  }

  /** `GET /pizza/{id}`: the stored row, or 404; no credential needed. */
  function GetPizza(rows: Table, id: int): (r: Result<PizzaResponse, ApiError>)
    ensures r == Failure(PizzaNotFound) <==> id !in rows
    ensures id in rows ==> r == Success(Respond(id, rows[id]))
  {
    if id in rows then Success(Respond(id, rows[id])) else Failure(PizzaNotFound)
  }

  /** The row is offered at the outlet: it names that outlet or no outlet at all. */
  predicate ServesOutlet(p: Pizza, code: string) {
    p.outletCode == Some(code) || p.outletCode == None
  }

  /** The responses for the listed ids whose rows serve the outlet, in the listed order. */
  function Select(rows: Table, code: string, ids: seq<int>): (r: seq<PizzaResponse>)
    requires forall i :: 0 <= i < |ids| ==> ids[i] in rows
    ensures FromRows(rows, r)
    ensures forall k :: 0 <= k < |r| ==> r[k].id in ids && ServesOutlet(rows[r[k].id], code)
    ensures forall i :: 0 <= i < |ids| && ServesOutlet(rows[ids[i]], code) ==> HasId(r, ids[i])
    ensures Ascending(ids) ==> AscendingIds(r)
  {
    if ids == [] then []
    else
      var rest := Select(rows, code, ids[1..]);
      if ServesOutlet(rows[ids[0]], code) then
        var r := [Respond(ids[0], rows[ids[0]])] + rest;
        SelectCons(rows, code, ids, rest, r);
        r
      else
        SelectSkip(rows, code, ids, rest);
        rest
  }

  /** The step of `Select` that keeps the first id. */
  lemma SelectCons(rows: Table, code: string, ids: seq<int>, rest: seq<PizzaResponse>, r: seq<PizzaResponse>)
    requires ids != [] && forall i :: 0 <= i < |ids| ==> ids[i] in rows
    requires ServesOutlet(rows[ids[0]], code)
    requires FromRows(rows, rest)
    requires forall k :: 0 <= k < |rest| ==> rest[k].id in ids[1..] && ServesOutlet(rows[rest[k].id], code)
    requires forall i :: 1 <= i < |ids| && ServesOutlet(rows[ids[i]], code) ==> HasId(rest, ids[i])
    requires Ascending(ids[1..]) ==> AscendingIds(rest)
    requires r == [Respond(ids[0], rows[ids[0]])] + rest
    ensures FromRows(rows, r)
    ensures forall k :: 0 <= k < |r| ==> r[k].id in ids && ServesOutlet(rows[r[k].id], code)
    ensures forall i :: 0 <= i < |ids| && ServesOutlet(rows[ids[i]], code) ==> HasId(r, ids[i])
    ensures Ascending(ids) ==> AscendingIds(r)
  {
    assert forall k :: 0 < k < |r| ==> r[k] == rest[k - 1];
    assert FromRows(rows, r) by {
      forall k | 0 <= k < |r| ensures r[k].id in rows && r[k] == Respond(r[k].id, rows[r[k].id]) {
        if k > 0 { assert r[k] == rest[k - 1]; }
      }
    }
    assert forall k :: 0 <= k < |r| ==> r[k].id in ids && ServesOutlet(rows[r[k].id], code) by {
      forall k | 0 <= k < |r| ensures r[k].id in ids && ServesOutlet(rows[r[k].id], code) {
        if k > 0 {
          assert r[k] == rest[k - 1];
          var j :| 0 <= j < |ids[1..]| && ids[1..][j] == rest[k - 1].id;
          assert ids[j + 1] == r[k].id;
        }
      }
    }
    forall i | 0 <= i < |ids| && ServesOutlet(rows[ids[i]], code) ensures HasId(r, ids[i]) {
      if i == 0 {
        assert r[0].id == ids[0];
      } else {
        assert ids[i] == ids[1..][i - 1];
        var k :| 0 <= k < |rest| && rest[k].id == ids[i];
        assert r[k + 1].id == ids[i];
      }
    }
    if Ascending(ids) {
      assert Ascending(ids[1..]);
      forall i, j | 0 <= i < j < |r| ensures r[i].id < r[j].id {
        assert r[j] == rest[j - 1];
        if i > 0 {
          assert r[i] == rest[i - 1];
        } else {
          var m :| 0 <= m < |ids[1..]| && ids[1..][m] == rest[j - 1].id;
          assert ids[1..][m] == ids[m + 1];
        }
      }
    }
  }

  /** The step of `Select` that drops the first id. */
  lemma SelectSkip(rows: Table, code: string, ids: seq<int>, rest: seq<PizzaResponse>)
    requires ids != [] && forall i :: 0 <= i < |ids| ==> ids[i] in rows
    requires !ServesOutlet(rows[ids[0]], code)
    requires forall k :: 0 <= k < |rest| ==> rest[k].id in ids[1..]
    requires forall i :: 1 <= i < |ids| && ServesOutlet(rows[ids[i]], code) ==> HasId(rest, ids[i])
    requires Ascending(ids[1..]) ==> AscendingIds(rest)
    ensures forall k :: 0 <= k < |rest| ==> rest[k].id in ids
    ensures forall i :: 0 <= i < |ids| && ServesOutlet(rows[ids[i]], code) ==> HasId(rest, ids[i])
    ensures Ascending(ids) ==> AscendingIds(rest)
  {
    forall i | 1 <= i < |ids| ensures ids[i] == ids[1..][i - 1] { }
    if Ascending(ids) {
      assert Ascending(ids[1..]);
    }
  }

  /**
   * `GET /pizza/for-outlet/{code}`: needs a valid token but no particular
   * role; the outlet must exist; then every row that names this outlet or
   * none, in ascending id order.
   */
  function PizzasForOutlet(rows: Table, cred: Credential, code: string, reply: OutletReply)
    : (r: Result<seq<PizzaResponse>, ApiError>)
    ensures !cred.Decoded? ==> r == Failure(InvalidToken)
    ensures cred.Decoded? && reply != Reply(200) ==> r == Failure(OutletCheck(code, reply).value)
    ensures cred.Decoded? && reply == Reply(200) ==> r.Success?
    ensures r.Success? ==> FromRows(rows, r.value)
    ensures r.Success? ==> forall k :: 0 <= k < |r.value| ==> ServesOutlet(rows[r.value[k].id], code)
    ensures r.Success? ==> forall id :: id in rows && ServesOutlet(rows[id], code) ==> HasId(r.value, id)
    ensures r.Success? ==> AscendingIds(r.value)
  {
    if !cred.Decoded? then Failure(InvalidToken)
    else
      var check := OutletCheck(code, reply);
      if check.Some? then Failure(check.value)
      else
        var ids := SortedKeys(rows.Keys);
        var r := Select(rows, code, ids);
        assert forall id :: id in rows && ServesOutlet(rows[id], code) ==> HasId(r, id) by {
          forall id | id in rows && ServesOutlet(rows[id], code) ensures HasId(r, id) {
            var i :| 0 <= i < |ids| && ids[i] == id;
          }
        }
        Success(r)
  }

  // ---------------------------------------------------------------------
  // Partial update

  /** One `setattr(pizza, key, value)` of the update loop. */
  datatype Assignment =
    | AssignName(name: string)
    | AssignDescription(description: Option<string>)
    | AssignPrice(price: Price)
    | AssignSize(size: PizzaSize)
    | AssignAvailability(availability: bool)

  function SetAttr(p: Pizza, a: Assignment): Pizza {
    match a
    case AssignName(v) => p.(name := v)
    case AssignDescription(v) => p.(description := v)
    case AssignPrice(v) => p.(price := v)
    case AssignSize(v) => p.(size := v)
    case AssignAvailability(v) => p.(availability := v)
  }

  /** The row after the assignments, applied first to last. */
  function ApplyAll(p: Pizza, items: seq<Assignment>): Pizza
    decreases |items|
  {
    if items == [] then p else ApplyAll(SetAttr(p, items[0]), items[1..])
  }

  /** The sent keys among `name`, `description`, `price`, `size`, `availability`, one list each. */
  function NameItem(f: Patch<string>): seq<Assignment> {
    if f.Given? then [AssignName(f.value)] else []
  }

  function DescriptionItem(f: Patch<Option<string>>): seq<Assignment> {
    if f.Given? then [AssignDescription(f.value)] else []
  }

  function PriceItem(f: Patch<Price>): seq<Assignment> {
    if f.Given? then [AssignPrice(f.value)] else []
  }

  /** A sent size becomes the stored enum; a sent null never gets here. */
  function SizeItem(f: Patch<Option<PizzaSize>>): seq<Assignment>
    requires f != Given(None)
  {
    if f.Given? then [AssignSize(NormalizedSize(f.value.value))] else []
  }

  function AvailabilityItem(f: Patch<bool>): seq<Assignment> {
    if f.Given? then [AssignAvailability(f.value)] else []
  }

  /** Position of an assignment's field in `PizzaUpdate`'s declaration. */
  function FieldIndex(a: Assignment): nat {
    match a
    case AssignName(_) => 0
    case AssignDescription(_) => 1
    case AssignPrice(_) => 2
    case AssignSize(_) => 3
    case AssignAvailability(_) => 4
  }

  /** The assignment sets a field the client sent, to the value sent. */
  predicate Sent(patch: PizzaUpdate, a: Assignment) {
    match a
    case AssignName(v) => patch.name == Given(v)
    case AssignDescription(v) => patch.description == Given(v)
    case AssignPrice(v) => patch.price == Given(v)
    case AssignSize(v) => patch.size == Given(Some(v))
    case AssignAvailability(v) => patch.availability == Given(v)
  }

  /** How many of the five fields the client sent. */
  function SentCount(patch: PizzaUpdate): nat {
    (if patch.name.Given? then 1 else 0)
    + (if patch.description.Given? then 1 else 0)
    + (if patch.price.Given? then 1 else 0)
    + (if patch.size.Given? then 1 else 0)
    + (if patch.availability.Given? then 1 else 0)
  }

  /** Every assignment sets a field the client sent, to the value sent. */
  predicate AllSent(patch: PizzaUpdate, items: seq<Assignment>) {
    forall a :: a in items ==> Sent(patch, a)
  }

  /** Fields strictly in declaration order, so each field at most once. */
  predicate InFieldOrder(items: seq<Assignment>) {
    forall j, k :: 0 <= j < k < |items| ==> FieldIndex(items[j]) < FieldIndex(items[k])
  }

  predicate Above(items: seq<Assignment>, i: int) {
    forall a :: a in items ==> i < FieldIndex(a)
  }

  /** Putting at most one assignment for field `i` in front of later fields keeps both properties. */
  lemma PrependField(patch: PizzaUpdate, x: seq<Assignment>, ys: seq<Assignment>, i: int)
    requires FieldPiece(patch, x, i)
    requires AllSent(patch, ys) && InFieldOrder(ys) && Above(ys, i)
    ensures AllSent(patch, x + ys) && InFieldOrder(x + ys) && Above(x + ys, i - 1)
  {
    if |x| == 1 {
      var r := x + ys;
      forall j, k | 0 <= j < k < |r| ensures FieldIndex(r[j]) < FieldIndex(r[k]) {
        assert r[k] == ys[k - 1] && r[k] in ys;
        if j > 0 { assert r[j] == ys[j - 1]; } else { assert r[j] in x; }
      }
    }
  }

  /**
   * `pizza_data.dict(exclude_unset=True)` with its size replaced by the
   * stored enum: the keys the client sent, in declaration order.
   */
  function UpdateData(patch: PizzaUpdate): seq<Assignment>
    requires patch.size != Given(None)
  {
    NameItem(patch.name)
    + (DescriptionItem(patch.description)
       + (PriceItem(patch.price)
          + (SizeItem(patch.size)
             + AvailabilityItem(patch.availability))))
  }

  /** One sent field's part of the update list: at most one assignment, for field `i`, with the value sent. */
  predicate FieldPiece(patch: PizzaUpdate, x: seq<Assignment>, i: int) {
    |x| <= 1 && AllSent(patch, x) && forall a :: a in x ==> FieldIndex(a) == i
  }

  lemma SizePiece(patch: PizzaUpdate)
    requires patch.size != Given(None)
    ensures FieldPiece(patch, SizeItem(patch.size), 3)
  {
    if patch.size.Given? {
      assert SizeItem(patch.size) == [AssignSize(patch.size.value.value)];
    }
  }

  /** The price, size and availability part of the update list. */
  lemma TailFollowsPatch(patch: PizzaUpdate)
    requires patch.size != Given(None)
    ensures var t := PriceItem(patch.price) + (SizeItem(patch.size) + AvailabilityItem(patch.availability));
      AllSent(patch, t) && InFieldOrder(t) && Above(t, 1)
  {
    var av := AvailabilityItem(patch.availability);
    var sz := SizeItem(patch.size);
    var pr := PriceItem(patch.price);
    SizePiece(patch);
    assert FieldPiece(patch, pr, 2);
    assert AllSent(patch, av) && InFieldOrder(av) && Above(av, 3);
    PrependField(patch, sz, av, 3);
    PrependField(patch, pr, sz + av, 2);
  }

  /** The update list holds one assignment per field sent, with the value sent, in declaration order. */
  lemma UpdateDataFollowsPatch(patch: PizzaUpdate)
    requires patch.size != Given(None)
    ensures AllSent(patch, UpdateData(patch)) && InFieldOrder(UpdateData(patch))
    ensures |UpdateData(patch)| == SentCount(patch)
  {
    var t := PriceItem(patch.price) + (SizeItem(patch.size) + AvailabilityItem(patch.availability));
    var de := DescriptionItem(patch.description);
    var na := NameItem(patch.name);
    TailFollowsPatch(patch);
    assert FieldPiece(patch, na, 0) && FieldPiece(patch, de, 1);
    PrependField(patch, de, t, 1);
    PrependField(patch, na, de + t, 0);
  }

  /** The intended effect of a partial update: each field sent replaces that field, nothing else changes. */
  function Merge(p: Pizza, patch: PizzaUpdate): Pizza
    requires patch.size != Given(None)
  {
    Pizza(
      OrDefault(patch.name, p.name),
      OrDefault(patch.description, p.description),
      OrDefault(patch.price, p.price),
      if patch.size.Given? then patch.size.value.GetOr(p.size) else p.size,
      OrDefault(patch.availability, p.availability),
      p.outletCode)
  }

  /** Applying at most one assignment, then a list. */
  lemma ApplyFront(p: Pizza, head: seq<Assignment>, rest: seq<Assignment>)
    requires |head| <= 1
    ensures ApplyAll(p, head + rest) == ApplyAll(if head == [] then p else SetAttr(p, head[0]), rest)
  {
    if head == [] {
      assert head + rest == rest;
    } else {
      assert (head + rest)[1..] == rest;
    }
  }

  /** Each field's list of sent keys, applied, replaces that field when it was sent. */
  lemma NameStep(p: Pizza, f: Patch<string>, rest: seq<Assignment>)
    ensures ApplyAll(p, NameItem(f) + rest) == ApplyAll(p.(name := OrDefault(f, p.name)), rest)
  {
    ApplyFront(p, NameItem(f), rest);
  }

  lemma DescriptionStep(p: Pizza, f: Patch<Option<string>>, rest: seq<Assignment>)
    ensures ApplyAll(p, DescriptionItem(f) + rest) == ApplyAll(p.(description := OrDefault(f, p.description)), rest)
  {
    ApplyFront(p, DescriptionItem(f), rest);
  }

  lemma PriceStep(p: Pizza, f: Patch<Price>, rest: seq<Assignment>)
    ensures ApplyAll(p, PriceItem(f) + rest) == ApplyAll(p.(price := OrDefault(f, p.price)), rest)
  {
    ApplyFront(p, PriceItem(f), rest);
  }

  lemma SizeStep(p: Pizza, f: Patch<Option<PizzaSize>>, rest: seq<Assignment>)
    requires f != Given(None)
    ensures ApplyAll(p, SizeItem(f) + rest)
            == ApplyAll(p.(size := if f.Given? then f.value.GetOr(p.size) else p.size), rest)
  {
    ApplyFront(p, SizeItem(f), rest);
  }

  lemma AvailabilityStep(p: Pizza, f: Patch<bool>)
    ensures ApplyAll(p, AvailabilityItem(f)) == p.(availability := OrDefault(f, p.availability))
  {
    ApplyFront(p, AvailabilityItem(f), []);
    assert AvailabilityItem(f) + [] == AvailabilityItem(f);
  }

  /** The update loop over the sent keys does exactly the field-wise merge. */
  lemma UpdateLoopIsMerge(p: Pizza, patch: PizzaUpdate)
    requires patch.size != Given(None)
    ensures ApplyAll(p, UpdateData(patch)) == Merge(p, patch)
  {
    var n, d, pr := NameItem(patch.name), DescriptionItem(patch.description), PriceItem(patch.price);
    var sz, av := SizeItem(patch.size), AvailabilityItem(patch.availability);
    var q1 := p.(name := OrDefault(patch.name, p.name));
    var q2 := q1.(description := OrDefault(patch.description, p.description));
    var q3 := q2.(price := OrDefault(patch.price, p.price));
    var q4 := q3.(size := if patch.size.Given? then patch.size.value.GetOr(p.size) else p.size);
    assert UpdateData(patch) == n + (d + (pr + (sz + av)));
    NameStep(p, patch.name, d + (pr + (sz + av)));
    DescriptionStep(q1, patch.description, pr + (sz + av));
    PriceStep(q2, patch.price, sz + av);
    SizeStep(q3, patch.size, av);
    AvailabilityStep(q4, patch.availability);
  }

  // ---------------------------------------------------------------------
  // The table and its mutating handlers

  class PizzaTable {
    /** The stored rows, by id. */
    var rows: Table
    /** The id the next insert receives. */
    var nextId: int

    /** Every stored id was handed out before, so `nextId` is fresh. */
    ghost predicate Valid()
      reads this
    {
      1 <= nextId && forall id :: id in rows ==> 1 <= id < nextId
    }

    constructor ()
      ensures Valid() && rows == map[] && nextId == 1
    {
      rows := map[];
      nextId := 1;
    }

    /**
     * `POST /pizza/create`: 401, 403, 400, then the outlet lookup (only
     * when a non-empty outlet code is sent), then insert under a fresh id.
     */
    method Create(cred: Credential, input: PizzaCreate, reply: OutletReply)
      returns (r: Result<PizzaResponse, ApiError>)
      requires Valid()
      modifies this
      ensures Valid()
      ensures !cred.Decoded? ==> r == Failure(InvalidToken)
      ensures cred.Decoded? && !Privileged(cred.role) ==> r == Failure(Forbidden)
      ensures Authorized(cred) && NameInUse(old(rows), input.name) ==> r == Failure(NameTaken)
      ensures (Authorized(cred) && !NameInUse(old(rows), input.name) && LooksUpOutlet(input.outletCode)
               && reply != Reply(200)) ==> r == Failure(OutletCheck(input.outletCode.value, reply).value)
      ensures r.Success? <==> Authorized(cred) && !NameInUse(old(rows), input.name)
                               && (LooksUpOutlet(input.outletCode) ==> reply == Reply(200))
      ensures r.Failure? ==> rows == old(rows) && nextId == old(nextId)
      ensures r.Success? ==>
                old(nextId) !in old(rows) && nextId == old(nextId) + 1
                && rows == old(rows)[old(nextId) := StoredFrom(input)]
                && r.value == Respond(old(nextId), StoredFrom(input))
    {
      if !cred.Decoded? {
        return Failure(InvalidToken);
      }
      if !Privileged(cred.role) {
        return Failure(Forbidden);
      }
      if NameInUse(rows, input.name) {
        return Failure(NameTaken);
      }
      if LooksUpOutlet(input.outletCode) {
        var check := OutletCheck(input.outletCode.value, reply);
        if check.Some? {
          return Failure(check.value);
        }
      }
      var pizza := StoredFrom(input);
      var id := nextId;
      rows := rows[id := pizza];
      nextId := nextId + 1;
      r := Success(Respond(id, pizza));
    }

    /**
     * `PUT /pizza/{id}`: 401 without a header, 401 for a bad token, 403,
     * 404; then the sent fields are assigned one by one.
     */
    method Update(cred: Credential, id: int, patch: PizzaUpdate)
      returns (r: Result<PizzaResponse, ApiError>)
      requires Valid()
      modifies this
      ensures Valid() && nextId == old(nextId)
      ensures cred.NoHeader? ==> r == Failure(TokenRequired)
      ensures cred.Rejected? ==> r == Failure(InvalidToken)
      ensures cred.Decoded? && !Privileged(cred.role) ==> r == Failure(Forbidden)
      ensures Authorized(cred) && id !in old(rows) ==> r == Failure(PizzaNotFound)
      ensures Authorized(cred) && id in old(rows) && patch.size == Given(None) ==> r == Failure(NullSize)
      ensures r.Success? <==> Authorized(cred) && id in old(rows) && patch.size != Given(None)
      ensures r.Failure? ==> rows == old(rows)
      ensures r.Success? ==>
                rows == old(rows)[id := Merge(old(rows)[id], patch)]
                && r.value == Respond(id, rows[id])
    {
      if cred.NoHeader? {
        return Failure(TokenRequired);
      }
      if cred.Rejected? {
        return Failure(InvalidToken);
      }
      if !Privileged(cred.role) {
        return Failure(Forbidden);
      }
      if id !in rows {
        return Failure(PizzaNotFound);
      }
      if patch.size == Given(None) {
        return Failure(NullSize);
      }
      var items := UpdateData(patch);
      var pizza := rows[id];
      var i := 0;
      while i < |items|
        invariant 0 <= i <= |items|
        invariant ApplyAll(pizza, items[i..]) == ApplyAll(rows[id], items)
      {
        assert items[i..][1..] == items[i + 1..];
        pizza := SetAttr(pizza, items[i]);
        i := i + 1;
      }
      assert items[i..] == [];
      UpdateLoopIsMerge(rows[id], patch);
      rows := rows[id := pizza];
      r := Success(Respond(id, pizza));
    }

    /**
     * `DELETE /pizza/{id}`: the same 401/401/403/404 gate as update, then
     * the row is removed; the result is the deleted id.
     */
    method Delete(cred: Credential, id: int) returns (r: Result<int, ApiError>)
      requires Valid()
      modifies this
      ensures Valid() && nextId == old(nextId)
      ensures cred.NoHeader? ==> r == Failure(TokenRequired)
      ensures cred.Rejected? ==> r == Failure(InvalidToken)
      ensures cred.Decoded? && !Privileged(cred.role) ==> r == Failure(Forbidden)
      ensures Authorized(cred) && id !in old(rows) ==> r == Failure(PizzaNotFound)
      ensures r.Success? <==> Authorized(cred) && id in old(rows)
      ensures r.Failure? ==> rows == old(rows)
      ensures r.Success? ==> r.value == id && rows == old(rows) - {id}
    {
      if cred.NoHeader? {
        return Failure(TokenRequired);
      }
      if cred.Rejected? {
        return Failure(InvalidToken);
      }
      if !Privileged(cred.role) {
        return Failure(Forbidden);
      }
      if id !in rows {
        return Failure(PizzaNotFound);
      }
      rows := rows - {id};
      r := Success(id);
    }
  }
}
