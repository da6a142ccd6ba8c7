/**
 * The registration route, `POST /users` with body `{ email, password }`.
 *
 * Two validation chains run first: the email must be a valid address (and
 * is then rewritten in normalised form) and the password must pass the
 * strength policy. Any failure is a 400 listing every failed field, before
 * anything is hashed or stored. Otherwise the password is hashed, the row is
 * inserted with one parameterised query whose role is always `user`, and
 * the answer is a bare 201. A rejected hash or insert is a 500 with a fixed
 * message.
 */
module Users {
  import opened Js
  import opened Db
  import opened Http

  /** `req.body`; `role` is whatever the client sent, and the route never reads it. */
  datatype Registration = Registration(email: Option<string>, password: Option<string>, role: Option<string>)

  /** An `isEmail` judgement; like the library's, it never accepts the empty string. */
  type EmailCheck = f: string -> bool | !f("") witness (s: string) => false

  /**
   * The validator library's judgements: `isEmail`, `normalizeEmail`, and the
   * character class `isStrongPassword` counts as symbols.
   */
  datatype Validators = Validators(isEmail: EmailCheck, normalizeEmail: string -> string, isSymbol: char -> bool)

  /** `bcrypt.hash(password, 10)`, salt included. */
  type Hasher = string -> Settled<string>

  const InsertSql := "INSERT INTO users (username, email, password, role) VALUES ($1, $2, $3, $4)"
  const ForcedRole := "user"
  const MinLength := 12
  const EmailMessage := "Valid email is required"
  const PasswordMessage := "Password must be at least 12 characters with uppercase, lowercase, number and special character"
  const Registered := Response(201, Created)

  // ---------------------------------------------------------------------------
  // Password policy: minLength 12, at least one of each character class

  predicate IsLower(c: char) { 'a' <= c <= 'z' }
  predicate IsUpper(c: char) { 'A' <= c <= 'Z' }
  predicate IsDigit(c: char) { '0' <= c <= '9' }

  /**
   * How `isStrongPassword` classifies a character: upper case, lower case and
   * digits are tested first, so only a character that is none of them counts
   * as a symbol, and then only if it is in the symbol class.
   */
  predicate IsSymbol(c: char, isSymbol: char -> bool) {
    !IsUpper(c) && !IsLower(c) && !IsDigit(c) && isSymbol(c)
  }

  function Symbols(isSymbol: char -> bool): (inClass: char -> bool) {
    c => IsSymbol(c, isSymbol)
  }

  /** How many characters of `s` fall in the class. */
  function CountClass(s: string, inClass: char -> bool): (n: nat)
    ensures n <= |s|
    ensures n > 0 <==> exists i :: 0 <= i < |s| && inClass(s[i])
  {
    if s == [] then 0
    else (if inClass(s[0]) then 1 else 0) + CountClass(s[1..], inClass)
  }

  /** The policy: at least twelve characters, with at least one of each of the four classes. */
  predicate StrongPassword(p: string, isSymbol: char -> bool) {
    && |p| >= MinLength
    && CountClass(p, IsLower) >= 1
    && CountClass(p, IsUpper) >= 1
    && CountClass(p, IsDigit) >= 1
    && CountClass(p, Symbols(isSymbol)) >= 1
  }

  /** `validationResult(req).array()`, in chain order: email first, then password. */
  function ValidationErrors(body: Registration, v: Validators): (errors: seq<FieldError>)
    ensures |errors| == (if v.isEmail(FieldString(body.email)) then 0 else 1)
                      + (if StrongPassword(FieldString(body.password), v.isSymbol) then 0 else 1)
    ensures |errors| == 2 ==> errors[0].path == "email"
    ensures FieldError("email", EmailMessage) in errors <==> !v.isEmail(FieldString(body.email))
    ensures FieldError("password", PasswordMessage) in errors
            <==> !StrongPassword(FieldString(body.password), v.isSymbol)
    ensures forall e :: e in errors ==> e == FieldError("email", EmailMessage) || e == FieldError("password", PasswordMessage)
  {
    (if v.isEmail(FieldString(body.email)) then [] else [FieldError("email", EmailMessage)])
    + (if StrongPassword(FieldString(body.password), v.isSymbol) then [] else [FieldError("password", PasswordMessage)])
  }

  /** The insert for an accepted registration. */
  function Insert(email: string, hashed: string): (c: Call) {
    Call(InsertSql, [email, email, hashed, ForcedRole])
  }

  /** What is sent to the database for a request body. */
  function RegisterCalls(body: Registration, v: Validators, hash: Hasher): (calls: seq<Call>)
    ensures |calls| <= 1
    ensures calls != [] ==> ValidationErrors(body, v) == []
    // whatever is inserted has the constant text and the role `user`
    ensures forall c :: c in calls ==> c.text == InsertSql && |c.params| == 4 && c.params[3] == ForcedRole
  {
    if ValidationErrors(body, v) != [] then []
    else
      ValidBodyHasFields(body, v);
      match hash(body.password.value)
      case Rejected(_) => []
      case Resolved(hashed) => [Insert(v.normalizeEmail(body.email.value), hashed)]
  }

  /** The response to a request body. */
  function RegisterResponse(body: Registration, v: Validators, hash: Hasher, db: Database): (r: Response)
    ensures r.status == 400 <==> ValidationErrors(body, v) != []
    ensures r.status == 400 ==> r.body == Errors(ValidationErrors(body, v))
    // a 201 is the bare `{ success: true }`; anything else is the generic 500
    ensures r.status == 201 ==> r == Registered
    ensures r.status != 400 && r.status != 201 ==> r == InternalError
  {
    var errors := ValidationErrors(body, v);
    if errors != [] then Response(400, Errors(errors))
    else
      ValidBodyHasFields(body, v);
      match hash(body.password.value)
      case Rejected(_) => InternalError
      case Resolved(hashed) =>
        match db(Insert(v.normalizeEmail(body.email.value), hashed))
        case Rejected(_) => InternalError
        case Resolved(_) => Registered
  }

  /** A body that passes validation has both fields. */
  lemma ValidBodyHasFields(body: Registration, v: Validators)
    requires ValidationErrors(body, v) == []
    ensures Truthy(body.email) && Truthy(body.password)
  {
  }

  /** The route handler; `v` gives the validation chains their judgements. */
  method PostUsers(pool: Pool, body: Registration, v: Validators, hash: Hasher) returns (res: Response)
    modifies pool
    ensures pool.calls == old(pool.calls) + RegisterCalls(body, v, hash)
    ensures res == RegisterResponse(body, v, hash, pool.respond)
  {
    var errors := ValidationErrors(body, v);
    if errors != [] {
      return Response(400, Errors(errors));
    }
    ValidBodyHasFields(body, v);
    var email, password := v.normalizeEmail(body.email.value), body.password.value;
    var role := ForcedRole;
    var hashedPassword := hash(password);
    if hashedPassword.Rejected? {
      return InternalError;
    }
    var inserted := pool.Query(InsertSql, [email, email, hashedPassword.value, role]);
    if inserted.Rejected? {
      return InternalError;
    }
    res := Registered;
  }

  // ---------------------------------------------------------------------------
  // Properties of the decision

  /** Validation failure is exactly a 400 with the error list, and nothing reaches the database. */
  lemma InvalidRejectedBeforeStorage(body: Registration, v: Validators, hash: Hasher, db: Database)
    ensures ValidationErrors(body, v) != [] ==>
              && RegisterResponse(body, v, hash, db) == Response(400, Errors(ValidationErrors(body, v)))
              && RegisterCalls(body, v, hash) == []
    ensures RegisterResponse(body, v, hash, db).status == 400 <==> ValidationErrors(body, v) != []
  {
  }

  /**
   * The policy stated directly: at least twelve characters, and at least one
   * character of each class; the counts above only matter for being positive.
   */
  lemma StrongPasswordClasses(p: string, isSymbol: char -> bool)
    ensures StrongPassword(p, isSymbol) <==>
              && |p| >= MinLength
              && (exists i :: 0 <= i < |p| && IsLower(p[i]))
              && (exists i :: 0 <= i < |p| && IsUpper(p[i]))
              && (exists i :: 0 <= i < |p| && IsDigit(p[i]))
              && (exists i :: 0 <= i < |p| && IsSymbol(p[i], isSymbol))
  {
  }

  /** Shorter than twelve characters never passes, whatever its classes. */
  lemma ShortPasswordRejected(p: string, isSymbol: char -> bool)
    requires |p| < MinLength
    ensures !StrongPassword(p, isSymbol)
  {
  }

  /** `short` fails the policy. */
  lemma ShortExampleRejected(isSymbol: char -> bool)
    ensures !StrongPassword("short", isSymbol)
  {
    ShortPasswordRejected("short", isSymbol);
  }

  /** `SecurePass1!`, the password the route's callers register with, meets it (with `!` a symbol). */
  lemma SecurePassExampleAccepted(isSymbol: char -> bool)
    requires isSymbol('!')
    ensures StrongPassword("SecurePass1!", isSymbol)
  {
    var p := "SecurePass1!";
    assert |p| == 12 && p[0] == 'S' && p[1] == 'e' && p[10] == '1' && p[11] == '!';
    StrongByWitnesses(p, isSymbol, 1, 0, 10, 11);
  }

  /** Twelve characters with one witness per class pass. */
  lemma StrongByWitnesses(p: string, isSymbol: char -> bool, lower: nat, upper: nat, digit: nat, symbol: nat)
    requires |p| >= MinLength && lower < |p| && upper < |p| && digit < |p| && symbol < |p|
    requires IsLower(p[lower]) && IsUpper(p[upper]) && IsDigit(p[digit]) && IsSymbol(p[symbol], isSymbol)
    ensures StrongPassword(p, isSymbol)
  {
    InClassCounted(p, IsLower, lower);
    InClassCounted(p, IsUpper, upper);
    InClassCounted(p, IsDigit, digit);
    InClassCounted(p, Symbols(isSymbol), symbol);
  }

  lemma InClassCounted(s: string, inClass: char -> bool, i: nat)
    requires i < |s| && inClass(s[i])
    ensures CountClass(s, inClass) >= 1
  {
  }

  /**
   * Letters and digits alone never pass, however long and mixed: the symbol
   * class is disjoint from them (`aaaaaaaaaaA1` fails).
   */
  lemma LettersAndDigitsRejected(p: string, isSymbol: char -> bool)
    requires forall i :: 0 <= i < |p| ==> IsLower(p[i]) || IsUpper(p[i]) || IsDigit(p[i])
    ensures !StrongPassword(p, isSymbol)
  {
  }

  /** A password without a digit fails, however long. */
  lemma MissingClassRejected(p: string, isSymbol: char -> bool)
    requires forall i :: 0 <= i < |p| ==> !IsDigit(p[i])
    ensures !StrongPassword(p, isSymbol)
  {
  }

  /** Every insert has the constant text, four parameters, the hash in third place and the role `user` in fourth. */
  lemma InsertShape(body: Registration, v: Validators, hash: Hasher)
    ensures |RegisterCalls(body, v, hash)| <= 1
    ensures forall c :: c in RegisterCalls(body, v, hash) ==>
              && c.text == InsertSql
              && hash(FieldString(body.password)) == Resolved(c.params[2])
              && c.params == [v.normalizeEmail(FieldString(body.email)), v.normalizeEmail(FieldString(body.email)), c.params[2], "user"]
  {
  }

  /** An insert happens exactly when validation and hashing both succeed. */
  lemma InsertIffAccepted(body: Registration, v: Validators, hash: Hasher)
    ensures RegisterCalls(body, v, hash) != [] <==>
              ValidationErrors(body, v) == [] && hash(body.password.value).Resolved?
  {
  }

  /** The role the client sends changes nothing: not the query, not the response. */
  lemma ClientRoleIgnored(body: Registration, role: Option<string>, v: Validators, hash: Hasher, db: Database)
    ensures RegisterCalls(body, v, hash) == RegisterCalls(body.(role := role), v, hash)
    ensures RegisterResponse(body, v, hash, db) == RegisterResponse(body.(role := role), v, hash, db)
  {
  }

  /**
   * The plaintext reaches the database only through its hash: two accepted
   * passwords with the same hash give the same insert.
   */
  lemma PlaintextOnlyThroughHash(a: Registration, b: Registration, v: Validators, hash: Hasher)
    requires ValidationErrors(a, v) == [] && ValidationErrors(b, v) == []
    requires a.email == b.email
    requires hash(a.password.value) == hash(b.password.value)
    ensures RegisterCalls(a, v, hash) == RegisterCalls(b, v, hash)
  {
  }

  /** Success is a bare 201 `{ success: true }`; no password or hash is echoed. */
  lemma SuccessEchoesNothing(body: Registration, v: Validators, hash: Hasher, db: Database)
    requires RegisterResponse(body, v, hash, db).status == 201
    ensures RegisterResponse(body, v, hash, db) == Response(201, Created)
    ensures |RegisterCalls(body, v, hash)| == 1 && db(RegisterCalls(body, v, hash)[0]).Resolved?
  {
  }

  /** A valid body whose hash and insert both resolve is registered: 201 `{ success: true }`. */
  lemma SuccessIsCreated(body: Registration, v: Validators, hash: Hasher, db: Database)
    requires ValidationErrors(body, v) == []
    requires hash(body.password.value).Resolved?
    requires db(RegisterCalls(body, v, hash)[0]).Resolved?
    ensures RegisterResponse(body, v, hash, db) == Registered
  {
  }

  /** A rejected hash or insert is a 500 whose body is the fixed message, whatever the error said. */
  lemma FailuresAreOpaque(body: Registration, v: Validators, hash: Hasher, db: Database)
    requires ValidationErrors(body, v) == []
    requires hash(body.password.value).Rejected?
             || db(RegisterCalls(body, v, hash)[0]).Rejected?
    ensures RegisterResponse(body, v, hash, db) == InternalError
    ensures RegisterResponse(body, v, hash, db).body == Error("Internal server error")
  {
  }
}
