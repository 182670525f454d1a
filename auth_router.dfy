/** `POST /auth/login`: the credentials check and the token it answers with.

    Password hashing is a parameter `hash`: it maps a plain password to its stored form,
    or to `None` when the hasher refuses the password. A stored hash `h` matches a plain
    password `p` exactly when `hash(p) == Some(h)`. Verification uses the same hasher,
    so a password the hasher refuses makes verification raise, and nothing at login
    catches that. Registration, which writes to the
    store, is `Store.Marketplace.Register`. */
module AuthRouter {
  import opened Common
  import opened Models
  import opened Text
  import opened AuthSchema

  const BadCredentials := "Incorrect email or password"

  /** A hasher that never gives two passwords the same stored form. */
  ghost predicate HashInjective(hash: string -> Option<string>) {
    forall a, b :: hash(a).Some? && hash(a) == hash(b) ==> a == b
  }

  /** Does a stored hash match a plain password? */
  predicate PasswordMatches(hash: string -> Option<string>, plain: string, stored: string) {
    hash(plain) == Some(stored)
  }

  /** The user with a given email, found by exact comparison; there is at most one. */
  function FindByEmail(users: map<int, User>, email: string): (r: Option<User>)
    requires EmailsUnique(users)
    ensures r.Some? <==> exists id :: id in users && users[id].email == email
    ensures r.Some? ==> r.value in users.Values && r.value.email == email
    ensures forall id | id in users && users[id].email == email :: r == Some(users[id])
  {
    if exists id :: id in users && users[id].email == email then
      var id :| id in users && users[id].email == email;
      Some(users[id])
    else None
  }

  /** `POST /auth/login`. The password is taken as sent, not stripped. An unknown email
      and a wrong password give the same 401; a match gives a bearer token whose subject
      is the email. The password is verified only once the email is found, and a
      password the hasher refuses then makes the answer a 500. */
  function Login(users: map<int, User>, req: LoginRequest, hash: string -> Option<string>): (r: Result<Token>)
    requires EmailsUnique(users)
    ensures r.Ok? <==> exists id :: (id in users && users[id].email == req.email
      && PasswordMatches(hash, req.password, users[id].password))
    ensures (forall id | id in users :: users[id].email != req.email) ==>
      r == Err(Unauthorized(BadCredentials))
    ensures (exists id :: id in users && users[id].email == req.email) && hash(req.password).None? ==>
      r == Err(ServerError(InternalServerError))
    ensures r.Err? && hash(req.password).Some? ==> r.error == Unauthorized(BadCredentials)
    ensures r.Ok? ==> r.value == BearerToken(AccessToken(req.email))
  {
    var found := FindByEmail(users, req.email);
    if found.None? then Err(Unauthorized(BadCredentials))
    else if hash(req.password).None? then Err(ServerError(InternalServerError))
    else if !PasswordMatches(hash, req.password, found.value.password) then
      Err(Unauthorized(BadCredentials))
    else
      Ok(BearerToken(AccessToken(found.value.email)))
  }

  /** Every failed login with a password the hasher accepts answers the same, whatever
      the reason, so such an answer does not tell a caller whether the email is
      registered. */
  lemma LoginErrorIsGeneric(users: map<int, User>, a: LoginRequest, b: LoginRequest,
                            hash: string -> Option<string>)
    requires EmailsUnique(users)
    requires hash(a.password).Some? && hash(b.password).Some?
    requires Login(users, a, hash).Err? && Login(users, b, hash).Err?
    ensures Login(users, a, hash) == Login(users, b, hash)
  {
  }

  /** A password the hasher refuses does tell: the same password answers 500 for a
      registered email and 401 for an unknown one. */
  lemma RefusedPasswordRevealsEmail(users: map<int, User>, id: int, unknown: string, password: string,
                                    hash: string -> Option<string>)
    requires EmailsUnique(users)
    requires id in users && hash(password).None?
    requires forall k | k in users :: users[k].email != unknown
    ensures Login(users, LoginRequest(users[id].email, password), hash) == Err(ServerError(InternalServerError))
    ensures Login(users, LoginRequest(unknown, password), hash) == Err(Unauthorized(BadCredentials))
    ensures Login(users, LoginRequest(users[id].email, password), hash) != Login(users, LoginRequest(unknown, password), hash)
  {
  }

  /** An unknown email is refused whatever the password. */
  lemma UnknownEmailRefused(users: map<int, User>, req: LoginRequest, hash: string -> Option<string>)
    requires EmailsUnique(users)
    requires forall id | id in users :: users[id].email != req.email
    ensures Login(users, req, hash) == Err(Unauthorized(BadCredentials))
  {
  }

  /** The subject of a token names exactly one user. */
  lemma TokenNamesOneUser(users: map<int, User>, req: LoginRequest, hash: string -> Option<string>)
    requires EmailsUnique(users)
    requires Login(users, req, hash).Ok?
    ensures var sub := Login(users, req, hash).value.accessToken.sub;
      exists id :: (id in users && users[id].email == sub
        && forall other | other in users && users[other].email == sub :: other == id)
  {
    var id :| id in users && users[id].email == req.email
      && PasswordMatches(hash, req.password, users[id].password);
    assert Login(users, req, hash).value.accessToken.sub == users[id].email;
  }

  /** Registration stores the hash of the stripped password, and login does not strip:
      with a hasher that never collides, a registered user can log in with the stripped
      password, and with the password exactly as typed only when it had no surrounding
      whitespace. */
  lemma PaddedPasswordLockedOut(users: map<int, User>, id: int, typed: string,
                                hash: string -> Option<string>)
    requires EmailsUnique(users) && HashInjective(hash)
    requires id in users && hash(Strip(typed)) == Some(users[id].password)
    ensures Login(users, LoginRequest(users[id].email, Strip(typed)), hash).Ok?
    ensures Login(users, LoginRequest(users[id].email, typed), hash).Ok? <==> Strip(typed) == typed
  {
    var email := users[id].email;
    assert PasswordMatches(hash, Strip(typed), users[id].password);
    if Login(users, LoginRequest(email, typed), hash).Ok? {
      var j :| j in users && users[j].email == email && PasswordMatches(hash, typed, users[j].password);
      assert j == id;
      assert hash(typed) == hash(Strip(typed));
    }
  }
}
