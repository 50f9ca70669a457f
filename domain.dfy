/** Value types shared by the route, account and middleware models: the
    enumerations the models declare as ENUM columns, an Option type for
    nullable columns, and the payload carried by a session token. */
module Domain {

  datatype Option<+T> = None | Some(value: T)

  /** Route service class (ENUM('XL', 'AC', 'S', 'N')). */
  datatype Category = XL | AC | S | N

  /** User role (ENUM('customer', 'admin')). */
  datatype Role = Customer | Admin

  /** Booking lifecycle (ENUM('pending', 'confirmed', 'cancelled')). */
  datatype BookingStatus = Pending | Confirmed | Cancelled

  function CategoryName(c: Category): string
  {
    match c
    case XL => "XL"
    case AC => "AC"
    case S => "S"
    case N => "N"
  }

  /** The allow-list test `['XL', 'AC', 'S', 'N'].includes(s)`: exact,
      case-sensitive string equality with one of the four names. */
  function ParseCategory(s: string): (r: Option<Category>)
    ensures r.Some? <==> (s == "XL" || s == "AC" || s == "S" || s == "N")
    ensures r.Some? ==> CategoryName(r.value) == s
    ensures r.None? ==> forall c :: CategoryName(c) != s
  {
    if s == "XL" then Some(XL)
    else if s == "AC" then Some(AC)
    else if s == "S" then Some(S)
    else if s == "N" then Some(N)
    else None
  }

  function RoleName(r: Role): string
  {
    match r
    case Customer => "customer"
    case Admin => "admin"
  }

  function ParseRole(s: string): (r: Option<Role>)
    ensures r.Some? <==> (s == "customer" || s == "admin")
    ensures r.Some? ==> RoleName(r.value) == s
    ensures r.None? ==> forall x :: RoleName(x) != s
  {
    if s == "customer" then Some(Customer)
    else if s == "admin" then Some(Admin)
    else None
  }

  function BookingStatusName(b: BookingStatus): string
  {
    match b
    case Pending => "pending"
    case Confirmed => "confirmed"
    case Cancelled => "cancelled"
  }

  function ParseBookingStatus(s: string): (r: Option<BookingStatus>)
    ensures r.Some? <==> (s == "pending" || s == "confirmed" || s == "cancelled")
    ensures r.Some? ==> BookingStatusName(r.value) == s
    ensures r.None? ==> forall b :: BookingStatusName(b) != s
  {
    if s == "pending" then Some(Pending)
    else if s == "confirmed" then Some(Confirmed)
    else if s == "cancelled" then Some(Cancelled)
    else None
  }

  /** The payload signed into a session token, `{ id, email, role }`. After
      decoding, `role` is whatever string the token carried. */
  datatype Claims = Claims(id: nat, email: string, role: string)

  /** A request-body or query value that is expected to be a string:
      absent (`undefined`), `null`, or a string. */
  datatype Field = Undefined | Null | Text(s: string)

  /** An HTTP response: status code and the `message` of its JSON body. */
  datatype Reply = Reply(status: nat, message: string)

  /** JavaScript truthiness of a Field: only a non-empty string is truthy. */
  predicate Truthy(f: Field)
  {
    f.Text? && f.s != ""
  }
}
