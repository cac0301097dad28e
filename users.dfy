/**
 * The user routes: registration, which settles the session id first (reuse
 * the cookie's or issue a fresh one), then validates the body, rejects a
 * known email and otherwise appends one row; and the unfiltered listing.
 */
module Users {
  import opened Wrappers
  import opened Request

  /** One row of `users`; `createdAt` is the registration instant in epoch milliseconds. */
  datatype User = User(id: UserId, sessionId: string, firstName: string, lastName: string, email: string, createdAt: int)

  /** A cookie the reply asks the client to store. */
  datatype Cookie = Cookie(name: string, value: string, path: string, maxAge: nat)

  /** Seven days, in seconds. */
  const SessionMaxAge: nat := 60 * 60 * 24 * 7

  /** The session cookie issued with a fresh session id. */
  function SessionCookie(sessionId: string): (c: Cookie)
    ensures c.name == "sessionId" && c.value == sessionId
    ensures c.path == "/" && c.maxAge == 604800
  {
    Cookie("sessionId", sessionId, "/", SessionMaxAge)
  }

  /** What the registration handler replies; `Invalid` as for the meal routes. */
  datatype RegisterReply = UserCreated | AlreadyExists(message: string) | Invalid
  {
    function Status(): nat
    {
      match this
      case UserCreated => 201
      case AlreadyExists(_) => 401
      case Invalid => 500
    }
  }

  /** A registration body that passed the schema. */
  datatype Registration = Registration(firstName: string, lastName: string, email: string)

  /** The registration schema: two name strings and a string that is an email address. */
  function ParseRegisterBody(body: Body, isEmail: string -> bool): (r: Option<Registration>)
    ensures body.NotAnObject? ==> r.None?
    ensures body.Object? ==> (
              r.Some? <==>
                && StringField(body.fields, "firstName").Some?
                && StringField(body.fields, "lastName").Some?
                && StringField(body.fields, "email").Some?
                && isEmail(body.fields["email"].text))
    ensures r.Some? ==> (
              && r.value.firstName == body.fields["firstName"].text
              && r.value.lastName == body.fields["lastName"].text
              && r.value.email == body.fields["email"].text)
  {
    match body
    case NotAnObject => None
    case Object(f) =>
      var first := StringField(f, "firstName");
      var last := StringField(f, "lastName");
      var email := StringField(f, "email");
      if first.Some? && last.Some? && email.Some? && isEmail(email.value) then
        Some(Registration(first.value, last.value, email.value))
      else None
  }

  /** Some row already carries this email. */
  ghost predicate EmailTaken(t: seq<User>, email: string)
  {
    exists k :: 0 <= k < |t| && t[k].email == email
  }

  /**
   * `where({ email }).first()`: the position of the first row carrying this
   * email, or None when no row does.
   */
  function FindByEmail(t: seq<User>, email: string): (r: Option<nat>)
    ensures r.Some? ==> r.value < |t| && t[r.value].email == email
    ensures r.Some? ==> forall j :: 0 <= j < r.value ==> t[j].email != email
    ensures r.None? <==> !EmailTaken(t, email)
  {
    if t == [] then None
    else if t[0].email == email then Some(0)
    else match FindByEmail(t[1..], email)
      case Some(k) => Some(k + 1)
      case None => None
  }

  /** No two users share an email, and no two share an id. */
  ghost predicate UniqueUsers(t: seq<User>)
  {
    forall i, j :: 0 <= i < j < |t| ==> t[i].email != t[j].email && t[i].id != t[j].id
  }

  /**
   * The request's session id is usable only when it is truthy: a missing
   * cookie and the empty string both fail `!sessionId`.
   */
  function HasSession(cookie: Option<string>): (r: bool)
    ensures cookie.None? ==> !r
    ensures cookie == Some("") ==> !r
    ensures cookie.Some? && cookie.value != "" ==> r
  {
    cookie.Some? && cookie.value != ""
  }

  class UserTable {
    /** The rows of `users`, in insertion order. */
    var rows: seq<User>

    ghost predicate Valid()
      reads this
    {
      UniqueUsers(rows)
    }

    constructor ()
      ensures Valid() && rows == []
    {
      rows := [];
    }

    /** GET /users: every row, unfiltered and in table order. */
    function List(): (r: seq<User>)
      reads this
      ensures |r| == |rows|
      ensures forall k :: 0 <= k < |r| ==> r[k] == rows[k]
    {
      rows
    }

    /**
     * POST /users. `sessionCookie` is the request's `sessionId` cookie;
     * `freshSession` and `freshId` are the two random UUIDs the handler would
     * draw, `now` the clock, `isEmail` the email format check.
     */
    method Register(sessionCookie: Option<string>, body: Body, isEmail: string -> bool,
                    freshSession: string, freshId: UserId, now: int)
      returns (reply: RegisterReply, setCookie: Option<Cookie>)
      requires Valid()
      requires forall k :: 0 <= k < |rows| ==> rows[k].id != freshId
      modifies this
      ensures Valid()
      // the session is settled before, and whatever, the body and the table say
      ensures setCookie.Some? <==> !HasSession(sessionCookie)
      ensures setCookie.Some? ==> setCookie.value == SessionCookie(freshSession)
      ensures reply == Invalid <==> ParseRegisterBody(body, isEmail).None?
      ensures reply.AlreadyExists? <==>
                ParseRegisterBody(body, isEmail).Some? && EmailTaken(old(rows), ParseRegisterBody(body, isEmail).value.email)
      ensures reply.AlreadyExists? ==> reply.message == "User already exists"
      ensures reply != UserCreated ==> rows == old(rows)
      ensures reply == UserCreated ==>
                var reg := ParseRegisterBody(body, isEmail).value;
                var session := if HasSession(sessionCookie) then sessionCookie.value else freshSession;
                rows == old(rows) + [User(freshId, session, reg.firstName, reg.lastName, reg.email, now)]
      ensures reply == UserCreated ==> EmailTaken(rows, ParseRegisterBody(body, isEmail).value.email)
    {
      var sessionId := if sessionCookie.Some? then sessionCookie.value else "";
      setCookie := None;
      if sessionId == "" {
        sessionId := freshSession;
        setCookie := Some(SessionCookie(sessionId));
      }

      var parsed := ParseRegisterBody(body, isEmail);
      if parsed.None? {
        return Invalid, setCookie;
      }
      var reg := parsed.value;

      var existing := FindByEmail(rows, reg.email);
      if existing.Some? {
        return AlreadyExists("User already exists"), setCookie;
      }

      var user := User(freshId, sessionId, reg.firstName, reg.lastName, reg.email, now);
      rows := rows + [user];
      assert rows[|rows| - 1].email == reg.email;
      reply := UserCreated;
    }
  }

  /**
   * Two registrations with the same body: whatever the first did, the second
   * is rejected and the table holds at most one row more than before.
   */
  method RegisterTwice(users: UserTable, body: Body, isEmail: string -> bool,
                       session: string, id1: UserId, id2: UserId, now: int)
    returns (first: RegisterReply, second: RegisterReply)
    requires users.Valid() && id1 != id2
    requires forall k :: 0 <= k < |users.rows| ==> users.rows[k].id != id1 && users.rows[k].id != id2
    modifies users
    ensures first == UserCreated ==> second == AlreadyExists("User already exists")
    ensures |users.rows| <= |old(users.rows)| + 1
  {
    var cookie;
    first, cookie := users.Register(Some(session), body, isEmail, session, id1, now);
    second, cookie := users.Register(Some(session), body, isEmail, session, id2, now);
  }

  /**
   * Two different people registering from one client that already holds a
   * session cookie: both rows carry that cookie's session id.
   */
  method RegisterWithSharedCookie(users: UserTable, session: string, body1: Body, body2: Body,
                                  isEmail: string -> bool, issued: string, id1: UserId, id2: UserId, now: int)
    returns (first: RegisterReply, second: RegisterReply)
    requires users.Valid() && id1 != id2 && session != ""
    requires forall k :: 0 <= k < |users.rows| ==> users.rows[k].id != id1 && users.rows[k].id != id2
    modifies users
    ensures first == UserCreated && second == UserCreated ==>
              var n := |users.rows|;
              n >= 2 && users.rows[n - 2].sessionId == session && users.rows[n - 1].sessionId == session
              && users.rows[n - 2].email != users.rows[n - 1].email
  {
    var cookie;
    first, cookie := users.Register(Some(session), body1, isEmail, issued, id1, now);
    second, cookie := users.Register(Some(session), body2, isEmail, issued, id2, now);
  }
}
