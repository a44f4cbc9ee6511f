/** The authentication service: bearer-header parsing, token validation,
    sign-up, login, registration and the user listing, over a user store
    keyed by email. bcrypt, the JWT library and the password handling of the
    user service are collaborators given to the service when it is built. */
module Auth {
  import opened Http
  import opened Strings

  /** The two account roles. */
  datatype Role = USER | ADMIN

  /** A row of the users table. */
  datatype User = User(id: string, email: string, password: string, role: Role, createdAt: int, updatedAt: int)

  /** The columns `findAll` selects: every column except the password. */
  datatype UserView = UserView(id: string, email: string, role: Role, createdAt: int, updatedAt: int)

  /** The claims `login` signs into a token. */
  datatype Payload = Payload(id: string, email: string, role: Role)

  /** What `jwt.verify` does with a token: return the payload, or throw. */
  datatype Verification = Verified(payload: Payload) | Rejected(reason: string)

  /** A request header value as Node delivers it: one string, or several. */
  datatype HeaderValue = Single(text: string) | Multiple(items: seq<string>)

  /** The object `login` resolves with. */
  datatype LoginResponse = LoginResponse(message: string, token: string, user: User)

  const AUTHORIZATION: string := "authorization"
  const BEARER: string := "Bearer "
  const SALT_ROUNDS: nat := 10
  const INVALID_HEADER: string := "Invalid authorization header format"
  const USER_EXISTS: string := "Sorry, this user already exists"
  const SIGNUP_OK: string := "User created successfully"
  const INVALID_CREDENTIALS: string := "Invalid email or password"
  const LOGIN_OK: string := "Login successful"
  const EMAIL_EXISTS: string := "Email already exists"

  /** `value.toString()`: an array of strings is joined with commas. */
  function HeaderString(value: HeaderValue): string {
    match value
    case Single(text) => text
    case Multiple(items) => Join(items, ",")
  }

  /** JavaScript truthiness of a header value: only the empty string is falsy. */
  predicate Truthy(value: HeaderValue) {
    !(value.Single? && value.text == "")
  }

  /** The user row projected onto the selected columns. */
  function View(u: User): UserView {
    UserView(u.id, u.email, u.role, u.createdAt, u.updatedAt)
  }

  /** The token claims taken from a user row. */
  function Claims(u: User): Payload {
    Payload(u.id, u.email, u.role)
  }

  class AuthService {
    /** The users table, keyed by email (`findByEmail` and `findOne({where: {email}})` look it up). */
    var users: map<string, User>

    /** `bcrypt.hash(plaintext, rounds)`, with the random salt made an explicit argument. */
    const hash: (string, nat, string) -> string
    /** `bcrypt.compare(plaintext, stored)`. */
    const compare: (string, string) -> bool
    /** `jwtService.sign(payload)` under the configured secret and expiry. */
    const sign: Payload -> string
    /** `jwt.verify(token, JWT_SECRET)`. */
    const verify: string -> Verification
    /** The password `UserService.create` stores for a plaintext it is given. */
    const storedPassword: string -> string

    /** Every user is filed under its own email, so emails are unique. */
    ghost predicate Valid()
      reads this
    {
      forall e :: e in users ==> users[e].email == e
    }

    constructor (hash: (string, nat, string) -> string, compare: (string, string) -> bool,
                 sign: Payload -> string, verify: string -> Verification,
                 storedPassword: string -> string)
      ensures Valid() && users == map[]
      ensures this.hash == hash && this.compare == compare && this.sign == sign
      ensures this.verify == verify && this.storedPassword == storedPassword
    {
      this.hash := hash;
      this.compare := compare;
      this.sign := sign;
      this.verify := verify;
      this.storedPassword := storedPassword;
      users := map[];
    }

    /** `validateToken`: the verified payload, or `Unauthorized` carrying the
        library's reason; no other exception escapes. */
    function ValidateToken(token: string): (r: Result<Payload>)
      ensures r.Ok? <==> verify(token).Verified?
      ensures r.Ok? ==> r.value == verify(token).payload
      ensures r.Err? ==> r.error == Unauthorized(verify(token).reason) && r.error.Status() == 401
    {
      match verify(token)
      case Verified(payload) => Ok(payload)
      case Rejected(reason) => Err(Unauthorized(reason))
    }

    /** `extractTokenFromHeaders`: rejects a missing header and one that does not
        begin with exactly "Bearer " (case-sensitive, one space); otherwise the
        token is what follows that prefix up to the next space, if any. */
    function ExtractTokenFromHeaders(headers: map<string, HeaderValue>): (r: Result<string>)
      ensures r.Err? <==> AUTHORIZATION !in headers || !StartsWith(HeaderString(headers[AUTHORIZATION]), BEARER)
      ensures r.Err? ==> r.error == Unauthorized(INVALID_HEADER)
      ensures r.Ok? ==>
        var rest := HeaderString(headers[AUTHORIZATION])[|BEARER|..];
        && r.value <= rest
        && ' ' !in r.value
        && (|r.value| == |rest| || rest[|r.value|] == ' ')
    {
      if AUTHORIZATION !in headers || !Truthy(headers[AUTHORIZATION])
         || !StartsWith(HeaderString(headers[AUTHORIZATION]), BEARER)
      then
        Err(Unauthorized(INVALID_HEADER))
      else
        var text := HeaderString(headers[AUTHORIZATION]);
        var rest := text[|BEARER|..];
        assert text == "Bearer" + [' '] + rest;
        SplitAfterHead("Bearer", ' ', rest);
        FirstPartIsPrefix(rest, ' ');
        Ok(Split(text, ' ')[1])
    }

    /** `login`: the same `Unauthorized` for an unknown email and for a wrong
        password; on success a token signed over the user's id, email and role,
        returned together with the whole user row. */
    function Login(email: string, password: string): (r: Result<LoginResponse>)
      reads this
      ensures r.Ok? <==> email in users && compare(password, users[email].password)
      ensures r.Err? ==> r.error == Unauthorized(INVALID_CREDENTIALS)
      ensures r.Ok? ==>
        var u := users[email];
        r.value == LoginResponse(LOGIN_OK, sign(Payload(u.id, u.email, u.role)), u)
    {
      if email !in users then
        Err(Unauthorized(INVALID_CREDENTIALS))
      else
        var user := users[email];
        if !compare(password, user.password) then
          Err(Unauthorized(INVALID_CREDENTIALS))
        else
          Ok(LoginResponse(LOGIN_OK, sign(Claims(user)), user))
    }

    /** `signup`: a taken email fails with status 401 and leaves the store alone;
        a fresh one gains exactly one user, always with role USER. `id` and `now`
        are what the database assigns. */
    method Signup(email: string, password: string, id: string, now: int) returns (r: Result<string>)
      requires Valid()
      modifies this
      ensures Valid()
      ensures email in old(users) ==>
        r == Err(Exception(USER_EXISTS, 401)) && users == old(users)
      ensures email !in old(users) ==>
        && r == Ok(SIGNUP_OK)
        && users == old(users)[email := User(id, email, storedPassword(password), USER, now, now)]
    {
      if email in users {
        return Err(Exception(USER_EXISTS, 401));
      }
      var user := User(id, email, storedPassword(password), USER, now, now);
      users := users[email := user];
      r := Ok(SIGNUP_OK);
    }

    /** `register`: a taken email fails with `Conflict`; otherwise the stored and
        returned user carries the bcrypt hash of the password and role USER.
        `salt` is bcrypt's random salt; `id` and `now` are what the database assigns. */
    method Register(email: string, password: string, salt: string, id: string, now: int) returns (r: Result<User>)
      requires Valid()
      modifies this
      ensures Valid()
      ensures email in old(users) ==>
        r == Err(Conflict(EMAIL_EXISTS)) && users == old(users)
      ensures email !in old(users) ==>
        && r == Ok(User(id, email, hash(password, SALT_ROUNDS, salt), USER, now, now))
        && users == old(users)[email := r.value]
    {
      if email in users {
        return Err(Conflict(EMAIL_EXISTS));
      }
      var hashed := hash(password, SALT_ROUNDS, salt);
      var user := User(id, email, hashed, USER, now, now);
      users := users[email := user];
      r := Ok(user);
    }

    /** `findAll`: one password-free view per stored user, in no particular order. */
    method FindAll() returns (views: seq<UserView>)
      requires Valid()
      ensures |views| == |users|
      ensures forall i :: 0 <= i < |views| ==> views[i].email in users && views[i] == View(users[views[i].email])
      ensures forall e :: e in users ==> View(users[e]) in views
    {
      views := [];
      var remaining := users.Keys;
      while remaining != {}
        invariant remaining <= users.Keys
        invariant |views| + |remaining| == |users|
        invariant forall i :: 0 <= i < |views| ==>
          views[i].email in users && views[i].email !in remaining && views[i] == View(users[views[i].email])
        invariant forall e :: e in users && e !in remaining ==> View(users[e]) in views
        decreases remaining
      {
        var e :| e in remaining;
        views := views + [View(users[e])];
        remaining := remaining - {e};
      }
    }
  }

  /** Login failures cannot be told apart: an unknown email and a wrong
      password produce the very same exception. */
  lemma LoginFailuresIdentical(svc: AuthService, e1: string, p1: string, e2: string, p2: string)
    requires e1 !in svc.users
    requires e2 in svc.users && !svc.compare(p2, svc.users[e2].password)
    ensures svc.Login(e1, p1) == svc.Login(e2, p2) == Err(Unauthorized(INVALID_CREDENTIALS))
  {
  }

  /** In a consistent store the token is signed over the requested email, and
      the response carries the stored password field: the whole row escapes. */
  lemma LoginClaimsRequestedEmail(svc: AuthService, email: string, password: string)
    requires svc.Valid()
    requires svc.Login(email, password).Ok?
    ensures svc.Login(email, password).value.token
         == svc.sign(Payload(svc.users[email].id, email, svc.users[email].role))
    ensures svc.Login(email, password).value.user.password == svc.users[email].password
  {
  }

  /** When the JWT library's verify undoes its sign, a token that login issues
      validates to exactly the user's id, email and role. */
  lemma LoginTokenValidates(svc: AuthService, email: string, password: string)
    requires svc.Valid()
    requires forall p :: svc.verify(svc.sign(p)) == Verified(p)
    requires svc.Login(email, password).Ok?
    ensures svc.ValidateToken(svc.Login(email, password).value.token)
         == Ok(Payload(svc.users[email].id, email, svc.users[email].role))
  {
  }

  /** The prefix of `rest` before its first space, as the contract of
      `ExtractTokenFromHeaders` describes it. */
  ghost predicate TokenOf(rest: string, token: string) {
    token <= rest && ' ' !in token && (|token| == |rest| || rest[|token|] == ' ')
  }

  /** That description pins the token down: at most one string meets it. */
  lemma TokenOfUnique(rest: string, x: string, y: string)
    requires TokenOf(rest, x) && TokenOf(rest, y)
    ensures x == y
  {
  }

  /** The header shapes the parser is meant for, and two it rejects. */
  lemma ExtractTokenExamples(svc: AuthService)
    ensures svc.ExtractTokenFromHeaders(map[AUTHORIZATION := Single("Bearer abc")]) == Ok("abc")
    ensures svc.ExtractTokenFromHeaders(map[AUTHORIZATION := Single("Bearer ")]) == Ok("")
    ensures svc.ExtractTokenFromHeaders(map[AUTHORIZATION := Single("Bearer a b")]) == Ok("a")
    ensures svc.ExtractTokenFromHeaders(map[AUTHORIZATION := Single("bearer abc")]).Err?
    ensures svc.ExtractTokenFromHeaders(map[]).Err?
  {
    ExtractTokenExample(svc, "Bearer abc", "abc");
    ExtractTokenExample(svc, "Bearer ", "");
    ExtractTokenExample(svc, "Bearer a b", "a");
    assert !StartsWith("bearer abc", BEARER) by { assert "bearer abc"[0] != BEARER[0]; }
  }

  lemma ExtractTokenExample(svc: AuthService, header: string, token: string)
    requires StartsWith(header, BEARER) && TokenOf(header[|BEARER|..], token)
    ensures svc.ExtractTokenFromHeaders(map[AUTHORIZATION := Single(header)]) == Ok(token)
  {
    var h := map[AUTHORIZATION := Single(header)];
    assert HeaderString(h[AUTHORIZATION]) == header;
    var r := svc.ExtractTokenFromHeaders(h);
    TokenOfUnique(header[|BEARER|..], r.value, token);
  }

  /** A client of the service: the sign-up and login sequence of a fresh store. */
  method SignupLoginScenario(hash: (string, nat, string) -> string, compare: (string, string) -> bool,
                             sign: Payload -> string, verify: string -> Verification,
                             storedPassword: string -> string)
  {
    var svc := new AuthService(hash, compare, sign, verify, storedPassword);
    var first := svc.Signup("a@x.com", "secret1", "1", 0);
    assert first == Ok(SIGNUP_OK);
    var again := svc.Signup("a@x.com", "secret1", "2", 1);
    assert again.Err? && again.error.Status() == 401;
    assert svc.users == map["a@x.com" := User("1", "a@x.com", storedPassword("secret1"), USER, 0, 0)];
    var login := svc.Login("a@x.com", "secret1");
    assert login.Ok? <==> compare("secret1", storedPassword("secret1"));
    var unknown := svc.Login("b@x.com", "secret1");
    assert unknown == Err(Unauthorized(INVALID_CREDENTIALS));
  }
}
