/**
 * The account and token routes (qr-manager/backend/src/routes/auth.ts) over an
 * in-memory `users` table.
 *
 * Sign-up is the only handler that changes the table, so it is a method of
 * `UserTable`. Login, `tokenIsValid` and `GET /auth` only read, and they are
 * functions of a snapshot of the rows.
 */
module Auth {
  import opened Prelude
  import opened Crypto
  import opened Schema
  import opened Http

  /** `envConfig.jwt.secret` when `JWT_SECRET` is not set. */
  const JwtSecret: string := "passwordKey"

  /** The bcrypt cost factor passed to `bcryptjs.hash`. */
  const SaltRounds: nat := 8

  const DuplicateEmail: string := "User with the same email already exists!"
  const UnknownEmail: string := "User with this email does not exist!"
  const WrongPassword: string := "Incorrect password!"
  const NoUser: string := "User not found!"

  /**
   * `const [row] = await db.select().from(users).where(...)`: the first row that
   * matches, or nothing.
   */
  function First(rows: seq<User>, matches: User -> bool): (r: Option<User>)
    ensures r.None? <==> forall i :: 0 <= i < |rows| ==> !matches(rows[i])
    ensures r.Some? ==> exists i :: 0 <= i < |rows| && rows[i] == r.value && matches(r.value)
    ensures r.Some? ==> matches(r.value) && r.value in rows
  {
    if rows == [] then None
    else if matches(rows[0]) then Some(rows[0])
    else
      var r := First(rows[1..], matches);
      assert forall i :: 1 <= i < |rows| ==> rows[i] == rows[1..][i - 1];
      r
  }

  predicate EmailTaken(rows: seq<User>, email: string) {
    exists i :: 0 <= i < |rows| && rows[i].email == email
  }

  predicate IdTaken(rows: seq<User>, id: UserId) {
    exists i :: 0 <= i < |rows| && rows[i].id == id
  }

  /** No two rows share an email: what the check before the insert in sign-up maintains. */
  ghost predicate EmailsDistinct(rows: seq<User>) {
    forall i, j :: 0 <= i < j < |rows| ==> rows[i].email != rows[j].email
  }

  /** No two rows share an id: the primary key. */
  ghost predicate IdsDistinct(rows: seq<User>) {
    forall i, j :: 0 <= i < j < |rows| ==> rows[i].id != rows[j].id
  }

  /** The `users` table. */
  class UserTable {
    var rows: seq<User>

    ghost predicate Valid()
      reads this
    {
      EmailsDistinct(rows) && IdsDistinct(rows)
    }

    constructor ()
      ensures Valid() && rows == []
    {
      rows := [];
    }

    /**
     * `POST /auth/signup`. A taken email is refused with 400 and nothing is written.
     * Otherwise the password is hashed with cost 8 and one row is appended with the
     * store's generated id and timestamps. If that id is already a key, the insert
     * throws and the reply is 500.
     */
    method Signup(name: string, email: string, password: string, salt: string, newId: UserId, now: Date)
      returns (reply: Reply)
      requires Valid()
      modifies this
      ensures Valid()
      ensures EmailTaken(old(rows), email) ==>
        reply == Reply(400, ErrorJson(DuplicateEmail)) && rows == old(rows)
      ensures !EmailTaken(old(rows), email) && IdTaken(old(rows), newId) ==>
        reply == Reply(500, ExceptionJson) && rows == old(rows)
      ensures !EmailTaken(old(rows), email) && !IdTaken(old(rows), newId) ==>
        var user := User(newId, name, email, Hash(password, SaltRounds, salt), now, now);
        rows == old(rows) + [user] && reply == Reply(201, UserJson(user))
    {
      var existing := First(rows, (u: User) => u.email == email);
      if existing.Some? {
        reply := Reply(400, ErrorJson(DuplicateEmail));
        return;
      }
      var hashed := Hash(password, SaltRounds, salt);
      var user := User(newId, name, email, hashed, now, now);
      if First(rows, (u: User) => u.id == newId).Some? {
        reply := Reply(500, ExceptionJson);
        return;
      }
      rows := rows + [user];
      reply := Reply(201, UserJson(user));
    }
  }

  /**
   * `POST /auth/login`. An unknown email and a wrong password are both 400, with
   * different messages. On success the reply carries a token signed over the
   * user's id (and the issue time) beside the user's row, status 200.
   */
  function Login(rows: seq<User>, email: string, password: string, now: int): (r: Reply)
    ensures r.status == 200 || r.status == 400
    ensures r.status == 400 <==> r.body.ErrorJson?
    ensures r.status == 200 ==>
      && r.body.LoginJson? && r.body.user in rows
      && r.body.user.email == email && Compare(password, r.body.user.password)
      && Verify(r.body.token, JwtSecret) == Decoded(Claims(r.body.user.id, now))
    ensures r.status == 400 ==>
      (r.body.error == UnknownEmail <==> !EmailTaken(rows, email))
  {
    match First(rows, (u: User) => u.email == email)
    case None => Reply(400, ErrorJson(UnknownEmail))
    case Some(user) =>
      if !Compare(password, user.password) then Reply(400, ErrorJson(WrongPassword))
      else Reply(200, LoginJson(Sign(Claims(user.id, now), JwtSecret), user))
  }

  /** A header that JavaScript reads as false: missing, or the empty string. */
  predicate Missing(header: Option<Token>) {
    header == None || header.value == Text("")
  }

  /**
   * `POST /auth/tokenIsValid`. `true` only for a present header that verifies and
   * whose subject is still a row. A token that `jwt.verify` rejects throws, and the
   * reply is then 500 with `false`.
   */
  function TokenIsValid(rows: seq<User>, header: Option<Token>): (r: Reply)
    ensures r.body.Flag?
    ensures r.status == 200 || r.status == 500
    ensures r.body.flag <==>
      !Missing(header) && Verify(header.value, JwtSecret).Decoded?
      && IdTaken(rows, Verify(header.value, JwtSecret).claims.id)
    ensures r.status == 500 <==> !Missing(header) && Verify(header.value, JwtSecret) == Thrown
    ensures r.status == 500 ==> !r.body.flag
  {
    if Missing(header) then Reply(200, Flag(false))
    else match Verify(header.value, JwtSecret)
      case Thrown => Reply(500, Flag(false))
      case Decoded(claims) =>
        match First(rows, (u: User) => u.id == claims.id)
        case None => Reply(200, Flag(false))
        case Some(_) => Reply(200, Flag(true))
  }

  /**
   * `GET /auth`, after the middleware has set `req.user` and `req.token`. Without
   * a user id the reply is 401. Otherwise it is the row with that id (if any)
   * spread beside the request's token.
   */
  function CurrentUser(rows: seq<User>, user: Option<UserId>, token: Option<Token>): (r: Reply)
    ensures r.status == 401 <==> user == None || user.value == ""
    ensures r.status == 401 ==> r == Reply(401, ErrorJson(NoUser))
    ensures r.status != 401 ==> r.status == 200 && r.body.CurrentUserJson? && r.body.echoed == token
    ensures r.status == 200 ==> (r.body.found.None? <==> !IdTaken(rows, user.value))
    ensures r.status == 200 && r.body.found.Some? ==>
      r.body.found.value in rows && r.body.found.value.id == user.value
  {
    if user == None || user.value == "" then Reply(401, ErrorJson(NoUser))
    else Reply(200, CurrentUserJson(First(rows, (u: User) => u.id == user.value), token))
  }

  // ---------------------------------------------------------------------------
  // Properties

  /** With distinct emails, login succeeds exactly when some row has the email and its hash accepts the password. */
  lemma LoginSucceedsIff(rows: seq<User>, email: string, password: string, now: int)
    requires EmailsDistinct(rows)
    ensures Login(rows, email, password, now).status == 200 <==>
      exists i :: 0 <= i < |rows| && rows[i].email == email && Compare(password, rows[i].password)
  {
    var found := First(rows, (u: User) => u.email == email);
    if exists i :: 0 <= i < |rows| && rows[i].email == email && Compare(password, rows[i].password) {
      var i :| 0 <= i < |rows| && rows[i].email == email && Compare(password, rows[i].password);
      var k :| 0 <= k < |rows| && rows[k] == found.value && rows[k].email == email;
      assert i == k;
    }
  }

  /** A wrong password for a known email gets its own message, distinct from an unknown email's. */
  lemma LoginWrongPassword(rows: seq<User>, i: nat, password: string, now: int)
    requires EmailsDistinct(rows)
    requires i < |rows| && !Compare(password, rows[i].password)
    ensures Login(rows, rows[i].email, password, now) == Reply(400, ErrorJson(WrongPassword))
  {
    var found := First(rows, (u: User) => u.email == rows[i].email);
    var k :| 0 <= k < |rows| && rows[k] == found.value && rows[k].email == rows[i].email;
    assert i == k;
  }

  /** The token from a successful login passes `tokenIsValid` against the same table. */
  lemma LoginThenTokenIsValid(rows: seq<User>, email: string, password: string, now: int)
    requires Login(rows, email, password, now).status == 200
    ensures TokenIsValid(rows, Some(Login(rows, email, password, now).body.token)) == Reply(200, Flag(true))
  {
    var user := Login(rows, email, password, now).body.user;
    var k :| 0 <= k < |rows| && rows[k] == user;
  }

  /** A token whose subject has no row is refused with 200 and `false`, even with a good signature. */
  lemma UnknownSubjectRefused(rows: seq<User>, id: UserId, iat: int)
    requires !IdTaken(rows, id)
    ensures TokenIsValid(rows, Some(Sign(Claims(id, iat), JwtSecret))) == Reply(200, Flag(false))
  {
  }

  /** A token signed with another secret makes `jwt.verify` throw: 500 and `false`. */
  lemma ForeignTokenRefused(rows: seq<User>, claims: Claims, secret: string)
    requires secret != JwtSecret
    ensures TokenIsValid(rows, Some(Sign(claims, secret))) == Reply(500, Flag(false))
  {
  }

  /** The first row that matches, once a row is appended that is the only match. */
  lemma {:induction false} FirstAppendedOnly(rows: seq<User>, user: User, matches: User -> bool)
    requires forall i :: 0 <= i < |rows| ==> !matches(rows[i])
    requires matches(user)
    ensures First(rows + [user], matches) == Some(user)
  {
    if rows != [] {
      assert (rows + [user])[1..] == rows[1..] + [user];
      FirstAppendedOnly(rows[1..], user, matches);
    }
  }

  /**
   * Sign-up, log-in and `GET /auth` in sequence: the row added by sign-up accepts its
   * password, and the login token names that row's id.
   */
  lemma SignupThenLogin(rows: seq<User>, name: string, email: string, password: string,
                        salt: string, newId: UserId, created: Date, now: int)
    requires !EmailTaken(rows, email) && !IdTaken(rows, newId) && newId != ""
    ensures var user := User(newId, name, email, Hash(password, SaltRounds, salt), created, created);
      var after := rows + [user];
      var token := Sign(Claims(newId, now), JwtSecret);
      && Login(after, email, password, now) == Reply(200, LoginJson(token, user))
      && CurrentUser(after, Some(newId), Some(token)) == Reply(200, CurrentUserJson(Some(user), Some(token)))
  {
    var user := User(newId, name, email, Hash(password, SaltRounds, salt), created, created);
    FirstAppendedOnly(rows, user, (u: User) => u.email == email);
    FirstAppendedOnly(rows, user, (u: User) => u.id == newId);
    CompareHash(password, SaltRounds, salt);
    assert (rows + [user])[|rows|] == user;
  }

  /** Two sign-ups with one email: the first is 201, the second 400, and exactly one row holds the email. */
  method SignupTwice(table: UserTable, name: string, email: string, password: string, salt: string,
                     id1: UserId, id2: UserId, now: Date)
    returns (first: Reply, second: Reply)
    requires table.Valid() && !EmailTaken(table.rows, email) && !IdTaken(table.rows, id1)
    modifies table
    ensures table.Valid()
    ensures first.status == 201 && second == Reply(400, ErrorJson(DuplicateEmail))
    ensures |table.rows| == |old(table.rows)| + 1
    ensures forall i :: 0 <= i < |table.rows| && table.rows[i].email == email <==> i == |old(table.rows)|
  {
    first := table.Signup(name, email, password, salt, id1, now);
    assert table.rows[|table.rows| - 1].email == email;
    second := table.Signup(name, email, password, salt, id2, now);
  }
}
