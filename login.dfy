/**
 * The login route, `POST /login` with body `{ username, password }`.
 *
 * Both fields must be present (400 otherwise, before the database is
 * touched). The user is then looked up with one parameterised query; an
 * unknown user and a wrong password give the same 401; a match gives 200
 * with the stored row minus its `password` column. Any rejected promise on
 * the way (the query, the bcrypt comparison) gives a 500 with a fixed
 * message.
 */
module Login {
  import opened Js
  import opened Db
  import opened Http

  /** `req.body`, as far as the route reads it. */
  datatype Credentials = Credentials(username: Option<string>, password: Option<string>)

  /** `bcrypt.compare(plaintext, stored)`; `stored` is `None` when the row has no `password` column. */
  type Compare = (string, Option<Cell>) -> Settled<bool>

  const LookupSql := "SELECT * FROM users WHERE username = $1"
  const MissingCredentials := Response(400, Error("Username and password are required"))
  const InvalidCredentials := Response(401, Error("Invalid credentials"))

  predicate HasCredentials(body: Credentials) {
    Truthy(body.username) && Truthy(body.password)
  }

  /** The lookup the route sends for a user name. */
  function Lookup(username: string): (c: Call) {
    Call(LookupSql, [username])
  }

  /** `user.password` */
  function StoredPassword(row: Row): (stored: Option<Cell>) {
    if "password" in row then Some(row["password"]) else None
  }

  /** `const { password: _, ...safeUser } = user` */
  function SafeUser(row: Row): (safe: Row)
    ensures "password" !in safe
    ensures forall k :: k in row && k != "password" ==> k in safe && safe[k] == row[k]
    ensures forall k :: k in safe ==> k in row
  {
    row - {"password"}
  }

  /** What is sent to the database for a request body. */
  function LoginCalls(body: Credentials): (calls: seq<Call>)
    ensures |calls| <= 1
    ensures calls == [] <==> !HasCredentials(body)
    ensures forall c :: c in calls ==> c.text == LookupSql && |c.params| == 1
  {
    if HasCredentials(body) then [Lookup(body.username.value)] else []
  }

  /** The decision once the lookup has settled. */
  function Verdict(password: string, found: Settled<seq<Row>>, compare: Compare): (r: Response)
    // a 200 needs a row and a comparison that resolved true
    ensures r.status == 200 <==>
              found.Resolved? && |found.value| > 0 && compare(password, StoredPassword(found.value[0])) == Resolved(true)
    ensures r.status == 200 ==> r.body.SignedIn? && "password" !in r.body.user
    // every other outcome is the 401 or the generic 500
    ensures r.status != 200 ==> r == InvalidCredentials || r == InternalError
  {
    match found
    case Rejected(_) => InternalError
    case Resolved(rows) =>
      if |rows| == 0 then InvalidCredentials
      else
        match compare(password, StoredPassword(rows[0]))
        case Rejected(_) => InternalError
        case Resolved(matches) =>
          if !matches then InvalidCredentials
          else Response(200, SignedIn(SafeUser(rows[0])))
  }

  /** The response to a request body, when `db` answers the lookup and `compare` checks the password. */
  function LoginResponse(body: Credentials, db: Database, compare: Compare): (r: Response)
    ensures r.status == 400 <==> !HasCredentials(body)
    ensures r.status == 400 ==> r == MissingCredentials
    // with both fields present, the answer is decided by the one query sent
    ensures HasCredentials(body) ==> r == Verdict(body.password.value, db(LoginCalls(body)[0]), compare)
  {
    if !HasCredentials(body) then MissingCredentials
    else Verdict(body.password.value, db(Lookup(body.username.value)), compare)
  }

  /** The route handler. */
  method PostLogin(pool: Pool, body: Credentials, compare: Compare) returns (res: Response)
    modifies pool
    ensures pool.calls == old(pool.calls) + LoginCalls(body)
    ensures res == LoginResponse(body, pool.respond, compare)
  {
    if !Truthy(body.username) || !Truthy(body.password) {
      return MissingCredentials;
    }
    var username, password := body.username.value, body.password.value;
    var result := pool.Query(LookupSql, [username]);
    if result.Rejected? {
      return InternalError;
    }
    if |result.value| == 0 {
      return InvalidCredentials;
    }
    var user := result.value[0];
    var passwordMatch := compare(password, StoredPassword(user));
    if passwordMatch.Rejected? {
      return InternalError;
    }
    if !passwordMatch.value {
      return InvalidCredentials;
    }
    res := Response(200, SignedIn(SafeUser(user)));
  }

  // ---------------------------------------------------------------------------
  // Properties of the decision

  /** A missing or empty field is a 400 and nothing reaches the database. */
  lemma MissingFieldRejectedBeforeQuery(body: Credentials, db: Database, compare: Compare)
    ensures !HasCredentials(body) <==> LoginCalls(body) == []
    ensures !HasCredentials(body) ==> LoginResponse(body, db, compare) == MissingCredentials
    ensures LoginResponse(body, db, compare).status == 400 ==> !HasCredentials(body)
  {
  }

  /** Exactly one query, with constant text and the user name as its only parameter. */
  lemma OneParameterisedLookup(body: Credentials)
    requires HasCredentials(body)
    ensures |LoginCalls(body)| == 1
    ensures LoginCalls(body)[0].text == "SELECT * FROM users WHERE username = $1"
    ensures LoginCalls(body)[0].params == [body.username.value]
  {
  }

  /** What is sent to the database depends on the user name alone, never on the password. */
  lemma QueryIgnoresPassword(a: Credentials, b: Credentials)
    requires HasCredentials(a) && HasCredentials(b) && a.username == b.username
    ensures LoginCalls(a) == LoginCalls(b)
  {
  }

  /** The SQL text is the same for every request, whatever the user name. */
  lemma QueryTextConstant(a: Credentials, b: Credentials)
    requires HasCredentials(a) && HasCredentials(b)
    ensures LoginCalls(a)[0].text == LoginCalls(b)[0].text
  {
  }

  /** An unknown user and a wrong password get the very same response. */
  lemma NoUserEnumeration(body: Credentials, unknown: Database, known: Database, compare: Compare)
    requires HasCredentials(body)
    requires unknown(Lookup(body.username.value)) == Resolved([])
    requires known(Lookup(body.username.value)).Resolved? && |known(Lookup(body.username.value)).value| > 0
    requires compare(body.password.value, StoredPassword(known(Lookup(body.username.value)).value[0])) == Resolved(false)
    ensures LoginResponse(body, unknown, compare) == LoginResponse(body, known, compare) == InvalidCredentials
  {
  }

  /** A 200 carries the first row found, minus its `password` column and otherwise unchanged. */
  lemma SuccessStripsPassword(body: Credentials, db: Database, compare: Compare)
    requires LoginResponse(body, db, compare).status == 200
    ensures HasCredentials(body)
    ensures var found := db(Lookup(body.username.value));
            && found.Resolved? && |found.value| > 0
            && compare(body.password.value, StoredPassword(found.value[0])) == Resolved(true)
            && LoginResponse(body, db, compare).body == SignedIn(SafeUser(found.value[0]))
    ensures "password" !in LoginResponse(body, db, compare).body.user
  {
  }

  /** Every response is one of the four the route writes. */
  lemma ResponsesAreFixed(body: Credentials, db: Database, compare: Compare)
    ensures var res := LoginResponse(body, db, compare);
            || res == MissingCredentials
            || res == InvalidCredentials
            || res == InternalError
            || (res.status == 200 && res.body.SignedIn?)
  {
  }

  /**
   * A failed query or comparison is a 500 with the fixed message; the error
   * it carried never reaches the client.
   */
  lemma FailuresAreOpaque(body: Credentials, db1: Database, db2: Database, compare: Compare, m1: string, m2: string)
    requires HasCredentials(body)
    requires db1(Lookup(body.username.value)) == Rejected(m1)
    requires db2(Lookup(body.username.value)) == Rejected(m2)
    ensures LoginResponse(body, db1, compare) == LoginResponse(body, db2, compare) == InternalError
  {
  }

  /** A rejected bcrypt comparison is the same opaque 500. */
  lemma CompareFailureIsOpaque(body: Credentials, db: Database, compare: Compare)
    requires HasCredentials(body)
    requires db(Lookup(body.username.value)).Resolved? && |db(Lookup(body.username.value)).value| > 0
    requires compare(body.password.value, StoredPassword(db(Lookup(body.username.value)).value[0])).Rejected?
    ensures LoginResponse(body, db, compare) == InternalError
  {
  }
}
