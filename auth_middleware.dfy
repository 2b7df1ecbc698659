/**
  * The request gates: `auth` reads a bearer token from the Authorization
  * header, verifies it and loads the user it names; `isTeacher` and
  * `isAdmin` admit a request by the loaded user's role.
  */
module AuthMiddleware {
  import opened Base
  import opened UserModel

  datatype AuthOutcome =
    | NoToken                          // 401 "Not authorized, no token"
    | TokenFailed                      // 401 "Not authorized, token failed"
    | Authenticated(user: Option<User>) // next(), with req.user possibly null

  predicate StartsWith(s: string, prefix: string) {
    |prefix| <= |s| && s[..|prefix|] == prefix
  }

  /** `header.split(" ")[1]`: undefined when the header holds no space. */
  function BearerToken(header: string): (t: Option<string>)
    ensures t.Some? <==> ' ' in header
    ensures t.Some? ==> ' ' !in t.value
  {
    SplitFieldCount(header, ' ');
    var fields := Split(header, ' ');
    if |fields| >= 2 then Some(fields[1]) else None
  }

  /** The token of `scheme + " " + token`, or of `scheme + " " + token + " " + rest`, is `token`. */
  lemma BearerTokenOf(scheme: string, token: string, rest: Option<string>)
    requires ' ' !in scheme && ' ' !in token
    ensures BearerToken(scheme + " " + token + (if rest.Some? then " " + rest.value else "")) == Some(token)
  {
    var tail := if rest.Some? then " " + rest.value else "";
    assert scheme + " " + token + tail == scheme + [' '] + (token + tail);
    SplitAfterField(scheme, ' ', token + tail);
    if rest.Some? {
      assert token + tail == token + [' '] + rest.value;
      SplitAfterField(token, ' ', rest.value);
    } else {
      assert token + tail == token;
      SplitNoSeparator(token, ' ');
    }
  }

  /**
    * `auth`. `verify` stands for `jwt.verify` with the server's secret: the
    * user id a valid token carries, or None when verification throws.
    * `jwt.verify` also throws for an undefined or empty token.
    */
  function Authenticate(header: Option<string>, verify: string -> Option<Id>, users: seq<User>): (r: AuthOutcome)
    ensures r.NoToken? <==> header.None? || !StartsWith(header.value, "Bearer")
    ensures r.TokenFailed? <==>
              header.Some? && StartsWith(header.value, "Bearer")
              && (!Truthy(BearerToken(header.value)) || verify(BearerToken(header.value).value).None?)
    ensures r.Authenticated? ==>
              var id := verify(BearerToken(header.value).value).value;
              r.user == (if FindUser(users, id).Some? then Some(users[FindUser(users, id).value]) else None)
  {
    if header.None? || !StartsWith(header.value, "Bearer") then NoToken
    else
      var token := BearerToken(header.value);
      if !Truthy(token) then TokenFailed
      else
        var id := verify(token.value);
        if id.None? then TokenFailed
        else
          var k := FindUser(users, id.value);
          Authenticated(if k.Some? then Some(users[k.value]) else None)
  }

  /** `isTeacher`: a loaded user whose role is "teacher". */
  predicate IsTeacher(user: Option<User>) {
    user.Some? && user.value.role == "teacher"
  }

  /** `isAdmin`: a loaded user whose role is "admin". */
  predicate IsAdmin(user: Option<User>) {
    user.Some? && user.value.role == "admin"
  }

  /** The role enum has no "admin", so no user that passed validation gets past `isAdmin`. */
  lemma NoValidAdmin(u: User)
    requires ValidUser(u)
    ensures !IsAdmin(Some(u))
  {
    ValidUserMeaning(u);
  }
}
