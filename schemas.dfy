/**
 * The request and response shapes of the pizza service: the `PizzaSize`
 * enumeration and the `PizzaCreate`, `PizzaUpdate` and `PizzaResponse`
 * records.
 */
module Schemas {
  import opened Wrappers

  /**
   * A price is a Python float. The service only stores and returns it, so
   * the model carries its IEEE 754 binary64 bit pattern and does no
   * arithmetic on it.
   */
  type Price = bv64

  /** The three sizes; a string enumeration whose member names equal their values. */
  datatype PizzaSize = SMALL | MEDIUM | LARGE

  /** The member's name, as in `PizzaSize.SMALL.name`. */
  function SizeName(s: PizzaSize): string {
    match s
    case SMALL => "SMALL"
    case MEDIUM => "MEDIUM"
    case LARGE => "LARGE"
  }

  /** The member's value, as in `PizzaSize.SMALL.value`: the string the API renders. */
  function SizeValue(s: PizzaSize): string {
    match s
    case SMALL => "SMALL"
    case MEDIUM => "MEDIUM"
    case LARGE => "LARGE"
  }

  /** Lookup by member name, `PizzaSize[t]`; `None` where Python raises `KeyError`. */
  function SizeByName(t: string): (r: Option<PizzaSize>)
    ensures r.Some? ==> SizeName(r.value) == t
    ensures r.None? ==> forall s :: SizeName(s) != t
  {
    if t == "SMALL" then Some(SMALL)
    else if t == "MEDIUM" then Some(MEDIUM)
    else if t == "LARGE" then Some(LARGE)
    else None
  }

  /** Lookup by value, `PizzaSize(t)`; `None` where Python raises `ValueError`. */
  function SizeByValue(t: string): (r: Option<PizzaSize>)
    ensures r.Some? ==> SizeValue(r.value) == t
    ensures r.None? ==> forall s :: SizeValue(s) != t
  {
    if t == "SMALL" then Some(SMALL)
    else if t == "MEDIUM" then Some(MEDIUM)
    else if t == "LARGE" then Some(LARGE)
    else None
  }

  /** `str.upper()` on one character, for the ASCII letters. */
  function UpperChar(c: char): char {
    if 'a' <= c <= 'z' then (c as int - 32) as char else c
  }

  /** `str.upper()`, restricted to ASCII case mapping. */
  function Upper(t: string): (r: string)
    ensures |r| == |t|
    ensures forall i :: 0 <= i < |t| ==> r[i] == UpperChar(t[i])
  {
    if t == [] then [] else [UpperChar(t[0])] + Upper(t[1..])
  }

  /** A string with no lower-case ASCII letter. */
  predicate IsUpperCase(t: string) {
    forall i :: 0 <= i < |t| ==> !('a' <= t[i] <= 'z')
  }

  /** `PizzaCreate`: the body of a create request. `outletCode` is read by the create route. */
  datatype PizzaCreate = PizzaCreate(
    name: string,
    description: Option<string>,
    price: Price,
    size: PizzaSize,
    availability: bool,
    outletCode: Option<string>)

  /**
   * One key of a request body. `Unset` is a key the client did not send;
   * `Given(v)` is a key it sent, so `exclude_unset` keeps it.
   */
  datatype Patch<+T> = Unset | Given(value: T)

  /** The value sent for a key, or `default` when the key was not sent. */
  function OrDefault<T>(f: Patch<T>, default: T): T {
    match f
    case Unset => default
    case Given(v) => v
  }

  /** A key that was sent with a non-null value. */
  predicate Supplied<T>(f: Patch<Option<T>>) {
    f.Given? && f.value.Some?
  }

  /**
   * A create request body as the client sent it: each key absent or
   * present, a present key possibly null. `outletCode` is the key the
   * create route reads.
   */
  datatype CreateBody = CreateBody(
    name: Patch<Option<string>>,
    description: Patch<Option<string>>,
    price: Patch<Option<Price>>,
    size: Patch<Option<PizzaSize>>,
    availability: Patch<Option<bool>>,
    outletCode: Patch<Option<string>>)

  /**
   * Validating a body against `PizzaCreate`: name, price and size are
   * required and not nullable, availability is not nullable; `None` is the
   * framework's 422 answer. Absent optional keys take their defaults.
   */
  function ParseCreate(body: CreateBody): (r: Option<PizzaCreate>)
    ensures r.Some? <==>
              Supplied(body.name) && Supplied(body.price) && Supplied(body.size)
              && body.availability != Given(None)
    ensures r.Some? ==>
              r.value.name == body.name.value.value && r.value.price == body.price.value.value
              && r.value.size == body.size.value.value
    ensures r.Some? && body.description == Unset ==> r.value.description == None
    ensures r.Some? && body.availability == Unset ==> r.value.availability
    ensures r.Some? && body.outletCode == Unset ==> r.value.outletCode == None
    ensures r.Some? ==> forall d :: body.description == Given(d) ==> r.value.description == d
    ensures r.Some? ==> forall b :: body.availability == Given(Some(b)) ==> r.value.availability == b
    ensures r.Some? ==> forall o :: body.outletCode == Given(o) ==> r.value.outletCode == o
  {
    if Supplied(body.name) && Supplied(body.price) && Supplied(body.size)
       && body.availability != Given(None)
    then
      Some(PizzaCreate(
        body.name.value.value,
        OrDefault(body.description, None),
        body.price.value.value,
        body.size.value.value,
        OrDefault(body.availability, Some(true)).value,
        OrDefault(body.outletCode, None)))
    else None
  }

  /** The body that sends every field of a create request. */
  function FullBody(c: PizzaCreate): CreateBody {
    CreateBody(Given(Some(c.name)), Given(c.description), Given(Some(c.price)), Given(Some(c.size)),
               Given(Some(c.availability)), Given(c.outletCode))
  }

  /**
   * `PizzaUpdate`: every field optional. `description` and `size` may be
   * sent as an explicit null, hence their `Option`; there is no `id` and
   * no `outletCode` field.
   */
  datatype PizzaUpdate = PizzaUpdate(
    name: Patch<string>,
    description: Patch<Option<string>>,
    price: Patch<Price>,
    size: Patch<Option<PizzaSize>>,
    availability: Patch<bool>)

  /** The update body `{}`: every field left at its default. */
  const NoChanges: PizzaUpdate := PizzaUpdate(Unset, Unset, Unset, Unset, Unset)

  /** `PizzaResponse`: the created or stored record with its id; `size` is the enum's value string. */
  datatype PizzaResponse = PizzaResponse(
    id: int,
    name: string,
    description: Option<string>,
    price: Price,
    size: string,
    availability: bool,
    outletCode: Option<string>)

  /** The fields of a response other than its id, as a create body. */
  function WithoutId(r: PizzaResponse): (c: Option<PizzaCreate>)
    ensures c.Some? <==> SizeByValue(r.size).Some?
    ensures c.Some? ==>
              c.value.name == r.name && c.value.description == r.description
              && c.value.price == r.price && SizeValue(c.value.size) == r.size
              && c.value.availability == r.availability && c.value.outletCode == r.outletCode
  {
    match SizeByValue(r.size)
    case Some(s) => Some(PizzaCreate(r.name, r.description, r.price, s, r.availability, r.outletCode))
    case None => None
  }

  // ---------------------------------------------------------------------
  // Properties of the size enumeration

  /** Every member's name is its value. */
  lemma NameIsValue(s: PizzaSize)
    ensures SizeName(s) == SizeValue(s)
  {
  }

  /** Rendering a size and parsing it back, by value or by name, gives the same member. */
  lemma SizeRoundTrip(s: PizzaSize)
    ensures SizeByValue(SizeValue(s)) == Some(s)
    ensures SizeByName(SizeName(s)) == Some(s)
  {
  }

  /** Exactly three members, with three distinct values: SMALL, MEDIUM and LARGE. */
  lemma SizesAreThree()
    ensures forall s: PizzaSize :: SizeValue(s) in {"SMALL", "MEDIUM", "LARGE"}
    ensures forall a: PizzaSize, b: PizzaSize :: SizeValue(a) == SizeValue(b) ==> a == b
    ensures {SizeValue(SMALL), SizeValue(MEDIUM), SizeValue(LARGE)} == {"SMALL", "MEDIUM", "LARGE"}
  {
  }

  /** A string is the value of a size exactly when it is one of the three tokens. */
  lemma SizeTokens(t: string)
    ensures SizeByValue(t).Some? <==> t == "SMALL" || t == "MEDIUM" || t == "LARGE"
  {
  }

  /** Upper-casing leaves an upper-case string unchanged. */
  lemma UpperOfUpperCase(t: string)
    requires IsUpperCase(t)
    ensures Upper(t) == t
  {
  }

  /** Every size value is upper case, so `PizzaSize(v.upper())` finds the member `v` came from. */
  lemma UpperSizeValue(s: PizzaSize)
    ensures Upper(SizeValue(s)) == SizeValue(s)
    ensures SizeByValue(Upper(SizeValue(s))) == Some(s)
  {
  }

  /** Sending every field of a create request and validating the body gives that request back. */
  lemma ParseFullBody(c: PizzaCreate)
    ensures ParseCreate(FullBody(c)) == Some(c)
  {
  }

  /** A body with only name, price and size is accepted; the rest take their defaults. */
  lemma RequiredFieldsSuffice(name: string, price: Price, size: PizzaSize)
    ensures ParseCreate(CreateBody(Given(Some(name)), Unset, Given(Some(price)), Given(Some(size)), Unset, Unset))
            == Some(PizzaCreate(name, None, price, size, true, None))
  {
  }

  /** A response whose size is a member's value carries back the create body it was rendered from. */
  lemma ResponseExtendsCreate(id: int, c: PizzaCreate)
    ensures WithoutId(PizzaResponse(id, c.name, c.description, c.price, SizeValue(c.size),
                                    c.availability, c.outletCode)) == Some(c)
  {
  }
}
