/** Logging in and being let through the gateway: the user store, the claims of an issued token, and
  * the window in which the gateway accepts it.  Signing is ideal: a token verifies under exactly the
  * secret it was signed with.
  */
module Login {
  import opened Outcomes
  import opened Calendar

  const LEEWAY := 10 * NS_PER_SECOND

  // ----- Users -----

  datatype User = User(login: string, password: string)

  function StoreOf(users: seq<User>): map<string, string> {
    if users == [] then map[]
    else StoreOf(users[..|users| - 1])[users[|users| - 1].login := users[|users| - 1].password]
  }

  function VerifyIn(byLogin: map<string, string>, login: string, password: string): bool {
    login in byLogin && byLogin[login] == password
  }

  /** Entry `i` is the last one for its login. */
  predicate LastEntry(users: seq<User>, i: nat)
    requires i < |users|
  {
    forall j | i < j < |users| :: users[j].login != users[i].login
  }

  class UserStore {
    var byLogin: map<string, string>
    ghost const list: seq<User>  // the configured users

    ghost predicate Valid()
      reads this
    {
      byLogin == StoreOf(list)
    }

    constructor (users: seq<User>)
      ensures Valid() && list == users
    {
      var m: map<string, string> := map[];
      for i := 0 to |users|
        invariant m == StoreOf(users[..i])
      {
        assert users[..i + 1][..i] == users[..i];
        m := m[users[i].login := users[i].password];
      }
      assert users[..|users|] == users;
      byLogin := m;
      list := users;
    }

    /** Right exactly for the password of the last entry with the login. */
    method Verify(login: string, password: string) returns (ok: bool)
      requires Valid()
      ensures ok <==> HasLastEntry(list, login, password)
    {
      LastEntryDecides(list, login, password);
      if login !in byLogin {
        return false;
      }
      ok := byLogin[login] == password;
    }
  }

  /** The last entry of the list with this login has this password. */
  ghost predicate HasLastEntry(users: seq<User>, login: string, password: string) {
    exists i :: 0 <= i < |users| && LastEntry(users, i) && users[i] == User(login, password)
  }

  /** A password is right exactly when it is that of the last entry with the login. */
  lemma {:induction false} LastEntryDecides(users: seq<User>, login: string, password: string)
    ensures VerifyIn(StoreOf(users), login, password) <==> HasLastEntry(users, login, password)
  {
    if users != [] {
      var n := |users| - 1;
      LastEntryDecides(users[..n], login, password);
      OneMoreUser(users[..n], users[n], login, password);
      assert users == users[..n] + [users[n]];
    }
  }

  /** A new entry takes its login over and leaves the other logins alone. */
  lemma OneMoreUser(users: seq<User>, u: User, login: string, password: string)
    ensures HasLastEntry(users + [u], login, password) <==>
            if u.login == login then u.password == password else HasLastEntry(users, login, password)
  {
    var more := users + [u];
    assert more[|users|] == u && LastEntry(more, |users|);
    assert forall i | 0 <= i < |users| :: more[i] == users[i];
    if u.login == login && HasLastEntry(more, login, password) {
      var i :| 0 <= i < |more| && LastEntry(more, i) && more[i] == User(login, password);
      assert i == |users|;
    }
    if u.login != login && HasLastEntry(users, login, password) {
      var i :| 0 <= i < |users| && LastEntry(users, i) && users[i] == User(login, password);
      assert LastEntry(more, i) && more[i] == User(login, password);
    }
    if u.login != login && HasLastEntry(more, login, password) {
      var i :| 0 <= i < |more| && LastEntry(more, i) && more[i] == User(login, password);
      assert i < |users| && LastEntry(users, i);
    }
  }

  // ----- Tokens -----

  datatype Claims = Claims(subject: string, issuedAt: int, notBefore: int, expiresAt: Option<int>, issuer: string)

  /** A token as the gateway's parser sees it. */
  datatype Token = Malformed | Signed(claims: Claims, secret: string, hs256: bool)

  /** NumericDate keeps whole seconds. */
  function FloorSecond(ns: int): int { ns / NS_PER_SECOND * NS_PER_SECOND }

  function IssueToken(subject: string, secret: string, ttl: int, issuer: string, now: int): Token {
    Signed(Claims(subject, FloorSecond(now), FloorSecond(now), Some(FloorSecond(now + ttl)), issuer), secret, true)
  }

  /** `validate`: the library's checks with leeway at one clock reading, then the gateway's own expiry
    * check at a later one. */
  function Validate(t: Token, secret: string, issuer: string, now: int, later: int): Result<Claims, string> {
    match t
    case Malformed => Err("malformed")
    case Signed(claims, key, hs256) =>
      if !hs256 || key != secret then Err("signature")
      else if claims.expiresAt.Some? && now >= claims.expiresAt.value + LEEWAY then Err("token is expired")
      else if now < claims.notBefore - LEEWAY then Err("token is not valid yet")
      else if claims.expiresAt.None? || claims.expiresAt.value < later then Err("token expired")
      else if issuer != "" && claims.issuer != issuer then Err("unexpected issuer")
      else Ok(claims)
  }

  /** Which tokens the gateway lets through, and with which claims: only those signed by HS256 under its
    * secret, that do expire, not more than ten seconds early, not after their expiry, and of its
    * issuer if it asks for one. */
  lemma LetThroughExactly(t: Token, secret: string, issuer: string, now: int, later: int, claims: Claims)
    ensures Validate(t, secret, issuer, now, later) == Ok(claims) <==>
            && t == Signed(claims, secret, true)
            && claims.notBefore <= now + 10_000_000_000
            && claims.expiresAt.Some? && later <= claims.expiresAt.value
            && now < claims.expiresAt.value + 10_000_000_000
            && (issuer == "" || claims.issuer == issuer)
  {
  }

  // ----- Logging in -----

  datatype LoginRequest = LoginRequest(login: string, password: string)

  /** What the body decodes to: nothing when it is not the expected JSON object. */
  datatype HttpLogin = HttpLogin(post: bool, json: bool, body: Option<LoginRequest>)

  datatype LoginError = MethodNotAllowed | UnsupportedMedia | BadJson | MissingFields | InvalidCredentials

  class AuthServer {
    const users: UserStore
    const secret: string
    const ttl: int
    const issuer: string

    constructor (users: UserStore, secret: string, ttl: int, issuer: string)
      ensures this.users == users && this.secret == secret && this.ttl == ttl && this.issuer == issuer
    {
      this.users, this.secret, this.ttl, this.issuer := users, secret, ttl, issuer;
    }

    /** A token exactly for the right password of a well-formed login, with that login as its subject
      * and whole-second times; otherwise the error of the first check that fails. */
    method Auth(req: HttpLogin, now: int) returns (r: Result<Token, LoginError>)
      requires users.Valid()
      ensures r.Ok? <==> WellFormed(req) && HasLastEntry(users.list, req.body.value.login, req.body.value.password)
      ensures r.Ok? ==> r.value.Signed? && r.value.secret == secret && r.value.hs256
      ensures r.Ok? ==> var claims := r.value.claims;
        && claims.subject == req.body.value.login && claims.issuer == issuer
        && claims.notBefore == claims.issuedAt <= now < claims.issuedAt + NS_PER_SECOND
        && claims.issuedAt % NS_PER_SECOND == 0
        && claims.expiresAt.Some?
        && claims.expiresAt.value <= now + ttl < claims.expiresAt.value + NS_PER_SECOND
        && claims.expiresAt.value % NS_PER_SECOND == 0
      ensures r == Err(InvalidCredentials) <==>
              WellFormed(req) && !HasLastEntry(users.list, req.body.value.login, req.body.value.password)
      ensures r == Err(MissingFields) <==>
              req.post && req.json && req.body.Some? && (req.body.value.login == "" || req.body.value.password == "")
      ensures r == Err(BadJson) <==> req.post && req.json && req.body.None?
      ensures r == Err(UnsupportedMedia) <==> req.post && !req.json
      ensures r == Err(MethodNotAllowed) <==> !req.post
    {
      if !req.post {
        return Err(MethodNotAllowed);
      }
      if !req.json {
        return Err(UnsupportedMedia);
      }
      if req.body.None? {
        return Err(BadJson);
      }
      var login, password := req.body.value.login, req.body.value.password;
      if login == "" || password == "" {
        return Err(MissingFields);
      }
      var ok := users.Verify(login, password);
      if !ok {
        return Err(InvalidCredentials);
      }
      r := Ok(IssueToken(login, secret, ttl, issuer, now));
    }
  }

  /** A POST of a JSON object with both fields non-empty. */
  predicate WellFormed(req: HttpLogin) {
    req.post && req.json && req.body.Some? && req.body.value.login != "" && req.body.value.password != ""
  }

  /** What `Auth` promises of a token issued at `t`. */
  predicate IssuedAt(token: Token, secret: string, subject: string, issuer: string, ttl: int, t: int) {
    && token.Signed? && token.secret == secret && token.hs256
    && token.claims.subject == subject && token.claims.issuer == issuer
    && token.claims.notBefore % NS_PER_SECOND == 0
    && token.claims.notBefore <= t < token.claims.notBefore + NS_PER_SECOND
    && token.claims.expiresAt.Some?
    && token.claims.expiresAt.value % NS_PER_SECOND == 0
    && token.claims.expiresAt.value <= t + ttl < token.claims.expiresAt.value + NS_PER_SECOND
  }

  /** The gateway shares the secret and asks for no other issuer. */
  predicate Trusts(secret: string, issuer: string, tokenSecret: string, tokenIssuer: string) {
    secret == tokenSecret && (issuer == "" || issuer == tokenIssuer)
  }

  /** A token issued at `t` is accepted, by a gateway that trusts its issuer, exactly from ten seconds
    * before the second it was issued in until the second of t + ttl: the leeway does not extend
    * expiry.  So it is never accepted after t + ttl, and always until a second before that. */
  lemma AcceptanceWindow(token: Token, subject: string, ttl: int, t: int, from: string, key: string,
                         secret: string, issuer: string, now: int, later: int)
    requires now <= later && IssuedAt(token, key, subject, from, ttl, t)
    ensures var checked := Validate(token, secret, issuer, now, later);
      && (checked.Ok? <==> Trusts(secret, issuer, key, from)
                           && FloorSecond(t) - LEEWAY <= now && later <= FloorSecond(t + ttl))
      && (checked.Ok? ==> later <= t + ttl && checked.value.subject == subject)
      && (Trusts(secret, issuer, key, from) && t <= now && later <= t + ttl - NS_PER_SECOND ==> checked.Ok?)
  {
    FloorIsUnique(token.claims.notBefore, t);
    FloorIsUnique(token.claims.expiresAt.value, t + ttl);
  }

  lemma FloorIsUnique(f: int, t: int)
    requires f % NS_PER_SECOND == 0 && f <= t < f + NS_PER_SECOND
    ensures FloorSecond(t) == f
  {
    var q := f / NS_PER_SECOND;
    assert t / NS_PER_SECOND == q;
  }

  /** Logging in and being let through: whoever logs in at `t` with the right password is accepted at
    * every time of the window, under the same login, and at no other. */
  method LoginThenPass(server: AuthServer, req: HttpLogin, t: int, secret: string, issuer: string, now: int, later: int)
    returns (r: Result<Token, LoginError>, passed: bool)
    requires server.users.Valid() && now <= later
    ensures r.Ok? <==> WellFormed(req) && HasLastEntry(server.users.list, req.body.value.login, req.body.value.password)
    ensures passed <==> r.Ok? && Trusts(secret, issuer, server.secret, server.issuer)
                        && FloorSecond(t) - LEEWAY <= now && later <= FloorSecond(t + server.ttl)
    ensures passed ==> r.value.Signed? && Validate(r.value, secret, issuer, now, later) == Ok(r.value.claims)
    ensures passed ==> r.value.claims.subject == req.body.value.login
  {
    r := server.Auth(req, t);
    passed := false;
    if r.Ok? {
      AcceptanceWindow(r.value, req.body.value.login, server.ttl, t, server.issuer, server.secret,
                       secret, issuer, now, later);
      passed := Validate(r.value, secret, issuer, now, later).Ok?;
    }
  }
}
