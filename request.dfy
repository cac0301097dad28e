/**
 * What a route handler receives from a request before its own validation:
 * a JSON body made of scalar values, a path parameter that must look like a
 * UUID, and the date coercion that the meal schemas apply to `date`.
 */
module Request {
  import opened Wrappers

  /** A user's id: the `id` of a `users` row, the `user_id` of a `meals` row,
      and the caller's id that the session middleware attaches to a request. */
  type UserId = string

  /** A scalar JSON value. JSON numbers are taken to be integers. */
  datatype Json = JString(text: string) | JNumber(number: int) | JBool(flag: bool) | JNull

  /** A request body: either something other than a JSON object, or an
      object whose absent keys are the fields the client left out. */
  datatype Body = NotAnObject | Object(fields: map<string, Json>)

  /** The value under `key`, or None when the key is absent (JavaScript's `undefined`). */
  function Field(fields: map<string, Json>, key: string): Option<Json>
  {
    if key in fields then Some(fields[key]) else None
  }

  /** A string field as the string schema reads it: present and a JSON string. */
  function StringField(fields: map<string, Json>, key: string): (r: Option<string>)
    ensures r.Some? <==> key in fields && fields[key].JString?
    ensures r.Some? ==> r.value == fields[key].text
  {
    match Field(fields, key)
    case Some(JString(s)) => Some(s)
    case _ => None
  }

  /** A boolean field as the boolean schema reads it: present and a JSON boolean. */
  function BoolField(fields: map<string, Json>, key: string): (r: Option<bool>)
    ensures r.Some? <==> key in fields && fields[key].JBool?
    ensures r.Some? ==> r.value == fields[key].flag
  {
    match Field(fields, key)
    case Some(JBool(b)) => Some(b)
    case _ => None
  }

  predicate IsHexDigit(c: char)
  {
    '0' <= c <= '9' || 'a' <= c <= 'f' || 'A' <= c <= 'F'
  }

  /** A run of hexadecimal digits, as one group of a UUID. */
  predicate IsHexGroup(g: string)
  {
    forall c | c in g :: IsHexDigit(c)
  }

  /**
   * The UUID shape the parameter schema accepts: five groups of 8, 4, 4, 4
   * and 12 hexadecimal digits, in either case, joined by hyphens. The
   * contract restates the shape position by position.
   */
  function IsUuid(s: string): (r: bool)
    ensures r <==> |s| == 36 &&
                   forall k :: 0 <= k < |s| ==>
                     if k == 8 || k == 13 || k == 18 || k == 23 then s[k] == '-' else IsHexDigit(s[k])
  {
    |s| == 36 && s[8] == '-' && s[13] == '-' && s[18] == '-' && s[23] == '-' &&
    IsHexGroup(s[..8]) && IsHexGroup(s[9..13]) && IsHexGroup(s[14..18]) &&
    IsHexGroup(s[19..23]) && IsHexGroup(s[24..])
  }

  /** The largest distance from the epoch, in milliseconds, that a JavaScript
      Date can hold; anything further is an invalid date. */
  const MaxTime: int := 8_640_000_000_000_000

  /**
   * `new Date(v)` followed by the validity test of the coercing date schema:
   * the epoch milliseconds of the resulting date, or None for an invalid date.
   * A string goes through the host's date parser, which is a parameter here.
   */
  function CoerceDate(v: Option<Json>, parseDate: string -> Option<int>): (r: Option<int>)
    // an absent value is `new Date(undefined)`, an invalid date
    ensures v.None? ==> r.None?
    // null, booleans and numbers convert to a number; it is valid iff it lies within the Date range
    ensures v.Some? && !v.value.JString? ==> (r.Some? <==> !v.value.JNumber? || -MaxTime <= v.value.number <= MaxTime)
    ensures v.Some? && !v.value.JString? && r.Some? ==> -MaxTime <= r.value <= MaxTime
    ensures v.Some? && v.value.JNumber? && r.Some? ==> r.value == v.value.number
    // `Number(null)` is 0 and `Number(true)` is 1
    ensures v == Some(JNull) ==> r == Some(0)
    ensures v.Some? && v.value.JBool? ==> r == Some(if v.value.flag then 1 else 0)
    // strings go through the date parser and nothing else
    ensures v.Some? && v.value.JString? ==> r == parseDate(v.value.text)
  {
    match v
    case None => None
    case Some(JNull) => Some(0)
    case Some(JBool(b)) => Some(if b then 1 else 0)
    case Some(JNumber(n)) => if -MaxTime <= n <= MaxTime then Some(n) else None
    case Some(JString(s)) => parseDate(s)
  }
}
