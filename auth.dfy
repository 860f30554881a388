/** `authController`: login, refresh and logout over the `token` table, and
    the `auth` middleware that reads the Bearer header. JSON Web Tokens and
    bcrypt are foreign code: signing, verifying and the password comparison
    are function parameters about which nothing is assumed. */
module Auth {
  import opened Common
  import opened Tables

  /** A claim of a token's payload. */
  datatype Claim = Number(n: int) | Text(s: string)

  /** A decoded token payload: its claims by name. */
  type Payload = map<string, Claim>

  /** The two signing keys (`TOKEN_SECRET`, `REFRESH_SECRET`). */
  datatype Secret = TokenSecret | RefreshSecret

  /** What `jwt.verify` does with a token: returns its payload, or throws a
      `TokenExpiredError`, or throws any other error. */
  datatype Verdict = Verified(payload: Payload) | Expired | Invalid

  datatype Tokens = Tokens(token: string, refreshToken: string)

  // ---------------------------------------------------------------------------
  // The token table

  /** The rows of one user, in table order. */
  function RowsOf(ts: seq<TokenRow>, u: nat): (r: seq<TokenRow>)
    ensures forall x :: x in r <==> x in ts && x.userId == u
  {
    if ts == [] then []
    else if ts[0].userId == u then [ts[0]] + RowsOf(ts[1..], u)
    else RowsOf(ts[1..], u)
  }

  /** `knex('token').where({ userId }).del()` */
  function WithoutUser(ts: seq<TokenRow>, u: nat): (r: seq<TokenRow>)
    ensures forall x :: x in r <==> x in ts && x.userId != u
  {
    if ts == [] then []
    else if ts[0].userId == u then WithoutUser(ts[1..], u)
    else [ts[0]] + WithoutUser(ts[1..], u)
  }

  /** `knex('token').where({ token }).del()` */
  function WithoutToken(ts: seq<TokenRow>, token: string): (r: seq<TokenRow>)
    ensures |r| <= |ts|
    ensures forall x :: x in r <==> x in ts && x.token != token
  {
    if ts == [] then []
    else if ts[0].token == token then WithoutToken(ts[1..], token)
    else [ts[0]] + WithoutToken(ts[1..], token)
  }

  /** The token table after a login of `u`: the old rows of `u` deleted, the
      new refresh token inserted. */
  function Relogin(ts: seq<TokenRow>, u: nat, id: nat, token: string): (r: seq<TokenRow>)
    ensures r != [] && r[|r| - 1] == TokenRow(id, u, token)
    ensures forall x :: x in r <==> x == TokenRow(id, u, token) || (x in ts && x.userId != u)
  {
    WithoutUser(ts, u) + [TokenRow(id, u, token)]
  }

  lemma {:induction false} RowsOfAppend(a: seq<TokenRow>, b: seq<TokenRow>, u: nat)
    ensures RowsOf(a + b, u) == RowsOf(a, u) + RowsOf(b, u)
  {
    if a == [] {
      assert a + b == b;
    } else {
      assert (a + b)[1..] == a[1..] + b;
      RowsOfAppend(a[1..], b, u);
    }
  }

  lemma {:induction false} RowsOfWithoutUser(ts: seq<TokenRow>, u: nat, v: nat)
    ensures RowsOf(WithoutUser(ts, u), v) == if v == u then [] else RowsOf(ts, v)
  {
    if ts != [] {
      RowsOfWithoutUser(ts[1..], u, v);
      if ts[0].userId != u {
        RowsOfAppend([ts[0]], WithoutUser(ts[1..], u), v);
      }
    }
  }

  /** After a login the user holds exactly one refresh token, the new one, and
      every other user's rows are as they were. */
  lemma LoginKeepsOneToken(ts: seq<TokenRow>, u: nat, id: nat, token: string)
    ensures RowsOf(Relogin(ts, u, id, token), u) == [TokenRow(id, u, token)]
    ensures forall v :: v != u ==> RowsOf(Relogin(ts, u, id, token), v) == RowsOf(ts, v)
  {
    RowsOfAppend(WithoutUser(ts, u), [TokenRow(id, u, token)], u);
    RowsOfWithoutUser(ts, u, u);
    forall v | v != u ensures RowsOf(Relogin(ts, u, id, token), v) == RowsOf(ts, v) {
      RowsOfAppend(WithoutUser(ts, u), [TokenRow(id, u, token)], v);
      RowsOfWithoutUser(ts, u, v);
    }
  }

  /** A logout keeps the other rows in their order. */
  lemma {:induction false} LogoutKeepsOthersInOrder(ts: seq<TokenRow>, token: string, v: nat)
    requires forall x :: x in ts && x.userId == v ==> x.token != token
    ensures RowsOf(WithoutToken(ts, token), v) == RowsOf(ts, v)
  {
    if ts != [] {
      LogoutKeepsOthersInOrder(ts[1..], token, v);
      if ts[0].token != token {
        RowsOfAppend([ts[0]], WithoutToken(ts[1..], token), v);
      }
    }
  }

  predicate Stored(ts: seq<TokenRow>, token: string)
  {
    exists i :: 0 <= i < |ts| && ts[i].token == token
  }

  // ---------------------------------------------------------------------------
  // Payloads

  /** The user row as `login` selects it, `password` included. */
  function UserRecord(id: nat, row: UserRow): Payload
  {
    map["id" := Number(id), "name" := Text(row.name), "document" := Text(row.document),
        "password" := Text(row.passwordHash)]
  }

  /** `const { password: _, ...userData } = user` */
  function WithoutPassword(p: Payload): (r: Payload)
    ensures "password" !in r
    ensures forall k :: k in p && k != "password" ==> k in r && r[k] == p[k]
    ensures forall k :: k in r ==> k in p
  {
    p - {"password"}
  }

  /** `delete decoded.iat; delete decoded.exp` */
  function WithoutTimes(p: Payload): (r: Payload)
    ensures "iat" !in r && "exp" !in r
    ensures forall k :: k in p && k != "iat" && k != "exp" ==> k in r && r[k] == p[k]
    ensures forall k :: k in r ==> k in p
  {
    p - {"iat", "exp"}
  }

  /** The payload signed at login carries the user's id, name and document,
      and never the password hash. */
  lemma LoginPayloadShape(id: nat, row: UserRow)
    ensures var p := WithoutPassword(UserRecord(id, row));
            && p.Keys == {"id", "name", "document"}
            && p["id"] == Number(id) && p["name"] == Text(row.name) && p["document"] == Text(row.document)
  {
    var p := WithoutPassword(UserRecord(id, row));
    assert "id" in p && "name" in p && "document" in p;
  }

  // ---------------------------------------------------------------------------
  // Handlers

  /** `login`: checks the password of the user with that document, signs an
      access and a refresh token, and replaces the user's stored refresh tokens
      with the new one. */
  method Login(db: Database, sign: (Secret, Payload) -> string, matches: (string, string) -> bool,
               document: string, password: string) returns (r: Result<Tokens>)
    requires db.Valid()
    modifies db`tokens, db`nextTokenId
    ensures db.Valid()
    ensures (forall u :: u in db.users ==> db.users[u].document != document) <==>
              r == Err(400, "user.notfound", "")
    ensures r.Err? ==> r == Err(400, "user.notfound", "") || r == Err(400, "login.nok", "")
    ensures (exists u :: u in db.users && db.users[u].document == document)
            && (forall u :: u in db.users && db.users[u].document == document ==> matches(password, db.users[u].passwordHash))
            ==> r.Ok?
    ensures r.Err? ==> db.tokens == old(db.tokens) && db.nextTokenId == old(db.nextTokenId)
    ensures r == Err(400, "login.nok", "") ==>
              exists u :: u in db.users && db.users[u].document == document
                          && !matches(password, db.users[u].passwordHash)
    ensures r.Ok? ==>
              exists u :: u in db.users && db.users[u].document == document
                          && matches(password, db.users[u].passwordHash)
                          && var p := WithoutPassword(UserRecord(u, db.users[u]));
                          && r.value == Tokens(sign(TokenSecret, p), sign(RefreshSecret, p))
                          && db.tokens == Relogin(old(db.tokens), u, old(db.nextTokenId), r.value.refreshToken)
                          && db.nextTokenId == old(db.nextTokenId) + 1
  {
    if u :| u in db.users && db.users[u].document == document {
      var user := db.users[u];
      if !matches(password, user.passwordHash) {
        r := Err(400, "login.nok", "");
        assert u in db.users && db.users[u].document == document;
        return;
      }
      var userData := WithoutPassword(UserRecord(u, user));
      var token := sign(TokenSecret, userData);
      var refreshToken := sign(RefreshSecret, userData);
      db.tokens := WithoutUser(db.tokens, u);
      db.tokens := db.tokens + [TokenRow(db.nextTokenId, u, refreshToken)];
      db.nextTokenId := db.nextTokenId + 1;
      r := Ok(Tokens(token, refreshToken));
      assert u in db.users && db.users[u].document == document;
    } else {
      r := Err(400, "user.notfound", "");
    }
  }

  /** `refresh`: a new access token for a stored, valid refresh token. An
      empty or unknown token is answered with status 200; a missing one makes
      the lookup throw (knex refuses an undefined binding), answered by the
      outer catch with 400. */
  method Refresh(db: Database, sign: (Secret, Payload) -> string, verify: (Secret, string) -> Verdict,
                 refreshToken: Option<string>) returns (r: Result<Tokens>)
    ensures refreshToken.None? ==> r == Err(400, "user.refresh.error", "")
    ensures refreshToken.Some? && (refreshToken.value == "" || !Stored(db.tokens, refreshToken.value)) ==>
              r == Err(200, "user.refresh.nok", "")
    ensures refreshToken.Some? && refreshToken.value != "" && Stored(db.tokens, refreshToken.value) ==>
              match verify(RefreshSecret, refreshToken.value)
              case Expired => r == Err(401, "user.refresh.expired", "")
              case Invalid => r == Err(400, "user.refresh.error", "")
              case Verified(p) => r == Ok(Tokens(sign(TokenSecret, WithoutTimes(p)), refreshToken.value))
  {
    if refreshToken.None? {
      return Err(400, "user.refresh.error", "");
    }
    if refreshToken.value == "" {
      return Err(200, "user.refresh.nok", "");
    }
    var token := refreshToken.value;
    var stored := exists i :: 0 <= i < |db.tokens| && db.tokens[i].token == token;
    if !stored {
      return Err(200, "user.refresh.nok", "");
    }
    match verify(RefreshSecret, token)
    case Expired =>
      r := Err(401, "user.refresh.expired", "");
    case Invalid =>
      r := Err(400, "user.refresh.error", "");
    case Verified(decoded) =>
      r := Ok(Tokens(sign(TokenSecret, WithoutTimes(decoded)), token));
  }

  /** `logout`: deletes the rows holding that refresh token. */
  method Logout(db: Database, refreshToken: string) returns (r: Result<()>)
    requires db.Valid()
    modifies db`tokens
    ensures db.Valid()
    ensures r == Ok(())
    ensures db.tokens == WithoutToken(old(db.tokens), refreshToken)
  {
    db.tokens := WithoutToken(db.tokens, refreshToken);
    r := Ok(());
  }

  /** After a logout the token can no longer be refreshed. */
  lemma LoggedOutTokenIsNotStored(ts: seq<TokenRow>, token: string)
    ensures !Stored(WithoutToken(ts, token), token)
  {
    var r := WithoutToken(ts, token);
    forall i | 0 <= i < |r| ensures r[i].token != token {
      assert r[i] in r;
    }
  }

  // ---------------------------------------------------------------------------
  // The `auth` middleware

  /** The characters `String.prototype.trim` removes: white space and line
      terminators. */
  predicate IsSpace(c: char)
  {
    var n := c as int;
    || n == 0x20 || 0x09 <= n <= 0x0D || n == 0xA0 || n == 0x1680 || 0x2000 <= n <= 0x200A
    || n == 0x2028 || n == 0x2029 || n == 0x202F || n == 0x205F || n == 0x3000 || n == 0xFEFF
  }

  function TrimStart(s: string): (r: string)
    ensures |r| <= |s| && r == s[|s| - |r|..]
    ensures r != [] ==> !IsSpace(r[0])
    ensures forall i :: 0 <= i < |s| - |r| ==> IsSpace(s[i])
  {
    if s != [] && IsSpace(s[0]) then
      var r := TrimStart(s[1..]);
      assert s[1..][|s| - 1 - |r|..] == s[|s| - |r|..];
      r
    else s
  }

  function TrimEnd(s: string): (r: string)
    ensures |r| <= |s| && r == s[..|r|]
    ensures r != [] ==> !IsSpace(r[|r| - 1])
    ensures forall i :: |r| <= i < |s| ==> IsSpace(s[i])
  {
    if s != [] && IsSpace(s[|s| - 1]) then TrimEnd(s[..|s| - 1]) else s
  }

  /** `s.trim()`: the longest infix of `s` between white space. */
  function Trim(s: string): (r: string)
    ensures exists i, j :: 0 <= i <= j <= |s| && r == s[i..j]
                           && (forall k :: 0 <= k < i ==> IsSpace(s[k]))
                           && (forall k :: j <= k < |s| ==> IsSpace(s[k]))
    ensures r != [] ==> !IsSpace(r[0]) && !IsSpace(r[|r| - 1])
  {
    var a := TrimStart(s);
    var r := TrimEnd(a);
    var i := |s| - |a|;
    assert r == s[i..i + |r|];
    r
  }

  /** Trimming a string that neither starts nor ends with white space keeps it. */
  lemma {:induction false} TrimKeeps(s: string)
    requires s != [] ==> !IsSpace(s[0]) && !IsSpace(s[|s| - 1])
    ensures Trim(s) == s
  {
  }

  /** `auth`: `Ok(user)` calls the next handler with `req.user = user`; an
      `Err` is the 401 answer. With `bypass` (`TEST_BYPASS_AUTH === '1'`) every
      request is user 1. */
  function Authenticate(bypass: bool, authorization: Option<string>, capitalised: Option<string>,
                        verify: (Secret, string) -> Verdict): (r: Result<Payload>)
    ensures bypass ==> r == Ok(map["id" := Number(1)])
    ensures !bypass && r.Ok? ==>
              var h := BearerHeader(authorization, capitalised);
              h.Some? && StartsWith(h.value, "Bearer ")
              && verify(TokenSecret, Trim(h.value[7..])) == Verified(r.value)
    ensures !bypass && (BearerHeader(authorization, capitalised).None?
                        || !StartsWith(BearerHeader(authorization, capitalised).value, "Bearer ")) ==>
              r == Err(401, "authorization.required", "Use Authorization: Bearer <token>")
    ensures !bypass && BearerHeader(authorization, capitalised).Some?
            && StartsWith(BearerHeader(authorization, capitalised).value, "Bearer ") ==>
              match verify(TokenSecret, Trim(BearerHeader(authorization, capitalised).value[7..]))
              case Verified(user) => r == Ok(user)
              case Expired => r == Err(401, "authorization.expired", "")
              case Invalid => r == Err(401, "authorization.fail", "")
  {
    if bypass then Ok(map["id" := Number(1)])
    else
      var header := BearerHeader(authorization, capitalised);
      if header.None? || !StartsWith(header.value, "Bearer ") then
        Err(401, "authorization.required", "Use Authorization: Bearer <token>")
      else
        match verify(TokenSecret, Trim(header.value[7..]))
        case Verified(user) => Ok(user)
        case Expired => Err(401, "authorization.expired", "")
        case Invalid => Err(401, "authorization.fail", "")
  }

  /** `req.headers.authorization || req.headers.Authorization`, an empty
      header counting as none. */
  function BearerHeader(authorization: Option<string>, capitalised: Option<string>): (h: Option<string>)
    ensures h.Some? ==> h.value != ""
    ensures authorization.Some? && authorization.value != "" ==> h == authorization
    ensures (authorization.None? || authorization.value == "") && capitalised.Some? && capitalised.value != "" ==>
              h == capitalised
    ensures h.None? <==> (authorization.None? || authorization.value == "") && (capitalised.None? || capitalised.value == "")
  {
    if authorization.Some? && authorization.value != "" then authorization
    else if capitalised.Some? && capitalised.value != "" then capitalised
    else None
  }

  /** A well-formed header: the token after "Bearer " is the one verified. */
  lemma BearerTokenIsVerified(token: string, verify: (Secret, string) -> Verdict)
    requires token != [] ==> !IsSpace(token[0]) && !IsSpace(token[|token| - 1])
    ensures Authenticate(false, Some("Bearer " + token), None, verify)
            == match verify(TokenSecret, token)
               case Verified(user) => Ok(user)
               case Expired => Err(401, "authorization.expired", "")
               case Invalid => Err(401, "authorization.fail", "")
  {
    var h := "Bearer " + token;
    assert StartsWith(h, "Bearer ");
    assert h[7..] == token;
    TrimKeeps(token);
  }

  /** White space of any kind and length between "Bearer " and the token,
      or after it, is ignored. */
  lemma PaddedBearerToken(p: string, token: string, q: string, verify: (Secret, string) -> Verdict)
    requires forall i :: 0 <= i < |p| ==> IsSpace(p[i])
    requires forall i :: 0 <= i < |q| ==> IsSpace(q[i])
    requires token != [] ==> !IsSpace(token[0]) && !IsSpace(token[|token| - 1])
    ensures Authenticate(false, Some("Bearer " + p + token + q), None, verify)
            == Authenticate(false, Some("Bearer " + token), None, verify)
  {
    var h := "Bearer " + p + token + q;
    assert h == "Bearer " + (p + token + q);
    assert StartsWith(h, "Bearer ");
    assert h[7..] == p + token + q;
    TrimPadded(p, token, q);
    BearerTokenIsVerified(token, verify);
  }

  /** Leading white space is skipped whatever follows it. */
  lemma {:induction false} TrimStartSkips(space: string, rest: string)
    requires forall i :: 0 <= i < |space| ==> IsSpace(space[i])
    ensures TrimStart(space + rest) == TrimStart(rest)
  {
    if space != [] {
      assert (space + rest)[0] == space[0];
      assert (space + rest)[1..] == space[1..] + rest;
      TrimStartSkips(space[1..], rest);
    } else {
      assert space + rest == rest;
    }
  }

  /** Trailing white space is dropped whatever precedes it. */
  lemma {:induction false} TrimEndSkips(rest: string, space: string)
    requires forall i :: 0 <= i < |space| ==> IsSpace(space[i])
    ensures TrimEnd(rest + space) == TrimEnd(rest)
  {
    if space != [] {
      var shorter := space[..|space| - 1];
      assert (rest + space)[..|rest + space| - 1] == rest + shorter;
      TrimEndSkips(rest, shorter);
    } else {
      assert rest + space == rest;
    }
  }

  /** `trim` returns the token whatever white space surrounds it. */
  lemma TrimPadded(p: string, token: string, q: string)
    requires forall i :: 0 <= i < |p| ==> IsSpace(p[i])
    requires forall i :: 0 <= i < |q| ==> IsSpace(q[i])
    requires token != [] ==> !IsSpace(token[0]) && !IsSpace(token[|token| - 1])
    ensures Trim(p + token + q) == token
  {
    assert p + token + q == p + (token + q);
    TrimStartSkips(p, token + q);
    if token == [] {
      assert token + q == q + [];
      TrimStartSkips(q, []);
    } else {
      assert (token + q)[0] == token[0];
      TrimEndSkips(token, q);
    }
  }
}
