/** `AuthMiddleware.use`: resolve the user a request's `Authorization`
    header names, store it on the request, and pass the request on.
    jsonwebtoken's `verify` is a parameter: it yields the token's claims, or
    nothing when it throws. */
module AuthMiddleware {
  import opened Js
  import opened Strings
  import opened Entities
  import opened UserSpec

  /** The second space-separated field of the header, absent when the header
      has a single field. */
  function Token(header: string): (r: Option<string>)
    ensures r.Some? <==> |Split(header, ' ')| >= 2
    ensures r.Some? ==> ' ' !in r.value
  {
    var fields := Split(header, ' ');
    if |fields| >= 2 then Some(fields[1]) else None
  }

  /** `Token <jwt>` yields the jwt. */
  lemma TokenIsSecondField(scheme: string, token: string)
    requires ' ' !in scheme && ' ' !in token
    ensures Token(scheme + " " + token) == Some(token)
  {
    var header := scheme + " " + token;
    assert header == scheme + [' '] + token;
    SplitAtFirst(scheme, ' ', token);
    SplitWhole(token, ' ');
    assert Split(header, ' ') == [scheme, token];
  }

  /** Fields after the second are ignored. */
  lemma TokenIgnoresRest(scheme: string, token: string, rest: string)
    requires ' ' !in scheme && ' ' !in token
    ensures Token(scheme + " " + token + " " + rest) == Some(token)
  {
    var header := scheme + " " + token + " " + rest;
    assert header == scheme + [' '] + (token + [' '] + rest);
    SplitAtFirst(scheme, ' ', token + [' '] + rest);
    SplitAtFirst(token, ' ', rest);
    assert Split(header, ' ') == [scheme] + ([token] + Split(rest, ' '));
  }

  /** A header without a space carries no token. */
  lemma NoSpaceNoToken(header: string)
    requires ' ' !in header
    ensures Token(header) == None
  {
    SplitWhole(header, ' ');
  }

  /** `userService.findById(id)` as the middleware sees it: the lookup's
      result, or an error when the database call throws. */
  type Lookup = nat -> Result<Option<User>>

  /** The lookup of a store that answers: `UserSpec.FindById` on its rows. */
  function StoreLookup(users: seq<User>): Lookup
  {
    (id: nat) => Ok(FindById(users, id))
  }

  /** The user the middleware puts on the request: none without a truthy
      header; none when the token is missing or `verify` rejects it, and
      none when `findById` throws (both errors are caught); otherwise
      whatever `findById` returns for the id in the claims. */
  function ResolveUser(authorization: Option<string>, verify: (string, string) -> Option<JwtPayload>,
                       secret: string, findById: Lookup): (r: Option<User>)
    ensures !TruthyString(authorization) ==> r.None?
    ensures r.Some? <==>
              && TruthyString(authorization)
              && Token(authorization.value).Some?
              && verify(Token(authorization.value).value, secret).Some?
              && findById(verify(Token(authorization.value).value, secret).value.id).Ok?
              && findById(verify(Token(authorization.value).value, secret).value.id).value.Some?
    ensures r.Some? ==> Some(r.value) == findById(verify(Token(authorization.value).value, secret).value.id).value
  {
    if !TruthyString(authorization) then None
    else match Token(authorization.value)
      case None => None
      case Some(token) =>
        match verify(token, secret)
        case None => None
        case Some(decode) =>
          match findById(decode.id)
          case Err(_) => None
          case Ok(user) => user
  }

  /** A failing lookup never reaches the request: the user is null, as if
      the token had been rejected. */
  lemma LookupFailureIsAnonymous(authorization: Option<string>, verify: (string, string) -> Option<JwtPayload>,
                                 secret: string, findById: Lookup)
    requires forall id: nat :: findById(id).Err?
    ensures ResolveUser(authorization, verify, secret, findById) == None
  {
  }

  /** Against a store, the user put on the request is a stored user with the
      id the token claims, and there is one exactly when the claimed id is
      stored. */
  lemma ResolveUserFromStore(authorization: Option<string>, verify: (string, string) -> Option<JwtPayload>,
                             secret: string, users: seq<User>)
    ensures var r := ResolveUser(authorization, verify, secret, StoreLookup(users));
      && (r.Some? ==> r.value in users && r.value.id == verify(Token(authorization.value).value, secret).value.id)
      && (r.Some? <==>
            && TruthyString(authorization)
            && Token(authorization.value).Some?
            && verify(Token(authorization.value).value, secret).Some?
            && exists j :: 0 <= j < |users| && users[j].id == verify(Token(authorization.value).value, secret).value.id)
  {
  }

  /** No two users share an id. */
  ghost predicate UniqueUserIds(users: seq<User>)
  {
    forall i, j :: 0 <= i < j < |users| ==> users[i].id != users[j].id
  }

  /** A token issued by `generateJwt` for a stored user authenticates as that
      user, provided `verify` accepts what `sign` produced with the same
      secret and the token has no space in it. */
  lemma IssuedTokenAuthenticates(users: seq<User>, k: nat, scheme: string,
                                 sign: (JwtPayload, string) -> string,
                                 verify: (string, string) -> Option<JwtPayload>, secret: string)
    requires UniqueUserIds(users) && k < |users|
    requires ' ' !in scheme && ' ' !in GenerateJwt(users[k], sign, secret)
    requires var p := JwtPayload(users[k].id, users[k].username, users[k].email);
      verify(sign(p, secret), secret) == Some(p)
    ensures ResolveUser(Some(scheme + " " + BuildUserResponse(users[k], sign, secret).user.token),
                        verify, secret, StoreLookup(users)) == Some(users[k])
  {
    TokenIsSecondField(scheme, GenerateJwt(users[k], sign, secret));
  }

  /** The incoming request; the middleware sets `user` on it. */
  class Request {
    const authorization: Option<string>
    var user: Option<User>

    constructor (authorization: Option<string>)
      ensures this.authorization == authorization && user.None?
    {
      this.authorization := authorization;
      user := None;
    }
  }

  /** Express's `next`, counted: the number of times it has been called. */
  class Next {
    var calls: nat

    constructor ()
      ensures calls == 0
    {
      calls := 0;
    }

    method Call()
      modifies this
      ensures calls == old(calls) + 1
    {
      calls := calls + 1;
    }
  }

  /** `use(req, res, next)`: set `req.user` to the resolved user and call
      `next` exactly once, on every path. */
  method Use(req: Request, next: Next,
             verify: (string, string) -> Option<JwtPayload>, secret: string, findById: Lookup)
    modifies req, next
    ensures req.user == ResolveUser(req.authorization, verify, secret, findById)
    ensures next.calls == old(next.calls) + 1
  {
    if !TruthyString(req.authorization) {
      req.user := None;
      next.Call();
      return;
    }
    var token := Token(req.authorization.value);
    if token.None? {
      req.user := None;
    } else {
      var decode := verify(token.value, secret);
      if decode.None? {
        req.user := None;
      } else {
        var found := findById(decode.value.id);
        if found.Err? {
          req.user := None;
        } else {
          req.user := found.value;
        }
      }
    }
    next.Call();
  }
}
