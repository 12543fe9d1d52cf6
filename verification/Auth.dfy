/** The authentication middleware, the role check behind it, and the two together. */
module Auth {
  import opened Basics
  import opened Text
  import opened ApiKeys
  import Jwt

  datatype AuthMethod = ByJwt | ByApiKey

  /** The three context values; None where the context holds none. */
  datatype Context = Context(subject: Option<string>, role: Option<string>, method_: Option<AuthMethod>)

  const EMPTY := Context(None, None, None)

  function RoleFromContext(ctx: Context): string {
    if ctx.role.Some? then ctx.role.value else ""
  }

  datatype AuthConfig = AuthConfig(
    jwtSecret: string, jwtIssuer: string, apiKeys: seq<ApiKeyEntry>, skipPaths: seq<string>)

  /** A request; a missing Authorization header reads as the empty string. */
  datatype Request = Request(path: string, authorization: string, context: Context)

  datatype Refusal =
    | MissingHeader | MalformedHeader | JwtNotConfigured | InvalidToken
    | ApiKeysNotConfigured | InvalidApiKey | UnsupportedScheme(scheme: string)

  /** The handler is called with a context, or an error is answered. */
  datatype Outcome = Handled(context: Context) | Unauthorized(why: Refusal) | Forbidden

  datatype Identity = Identity(subject: string, role: string, method_: AuthMethod)

  function WithIdentity(id: Identity): Context {
    Context(Some(id.subject), Some(id.role), Some(id.method_))
  }

  /** The context values a handler reads are those of the identity. */
  predicate Carries(ctx: Context, id: Identity) {
    ctx.subject == Some(id.subject) && ctx.role == Some(id.role) && ctx.method_ == Some(id.method_)
  }

  // ----- What counts as a credential -----

  /** A valid token of that identity, where tokens are configured. */
  predicate TokenOf(lib: Jwt.Library, cfg: AuthConfig, credential: string, now: int, id: Identity) {
    && cfg.jwtSecret != ""
    && var r := Jwt.ValidateJWT(lib, credential, cfg.jwtSecret, cfg.jwtIssuer, now);
       r.Ok? && id == Identity(r.value.subject, r.value.role, ByJwt)
  }

  /** A configured key, the last entry for it having that identity. */
  ghost predicate KeyOf(cfg: AuthConfig, credential: string, id: Identity) {
    exists i: nat :: LastWithKey(cfg.apiKeys, credential, i) &&
                id == Identity(cfg.apiKeys[i].subject, cfg.apiKeys[i].role, ByApiKey)
  }

  /** The Authorization header is a scheme, a space and a credential for the identity. */
  ghost predicate Presents(lib: Jwt.Library, cfg: AuthConfig, authorization: string, now: int, id: Identity) {
    exists scheme, credential ::
      && authorization == scheme + " " + credential && ' ' !in scheme
      && ((Lower(scheme) == "bearer" && TokenOf(lib, cfg, credential, now, id)) ||
          (Lower(scheme) == "apikey" && KeyOf(cfg, credential, id)))
  }

  /** A header presents what its one cut at the first space presents. */
  lemma PresentsCut(lib: Jwt.Library, cfg: AuthConfig, scheme: string, credential: string, now: int, id: Identity)
    requires ' ' !in scheme
    ensures Presents(lib, cfg, scheme + " " + credential, now, id) <==>
            (Lower(scheme) == "bearer" && TokenOf(lib, cfg, credential, now, id)) ||
            (Lower(scheme) == "apikey" && KeyOf(cfg, credential, id))
  {
    var header := scheme + " " + credential;
    forall s, c | header == s + " " + c && ' ' !in s
      ensures s == scheme && c == credential
    {
      SplitInTwo(header, ' ', scheme, credential);
      SplitInTwo(header, ' ', s, c);
      assert [s, c][0] == [scheme, credential][0] && [s, c][1] == [scheme, credential][1];
    }
  }

  lemma PresentsBySpace(lib: Jwt.Library, cfg: AuthConfig, authorization: string, now: int, id: Identity)
    requires Presents(lib, cfg, authorization, now, id)
    ensures ' ' in authorization && |SplitN(authorization, ' ', 2)| == 2
  {
    var scheme, credential :| authorization == scheme + " " + credential && ' ' !in scheme;
    assert authorization[|scheme|] == ' ';
    SplitInTwo(authorization, ' ', scheme, credential);
  }

  // ----- The middlewares -----

  /** Fills a map used as a set. */
  method SetOf(items: seq<string>) returns (m: map<string, bool>)
    ensures forall x :: (x in m && m[x]) <==> x in items
  {
    m := map[];
    for i := 0 to |items|
      invariant forall x :: (x in m && m[x]) <==> x in items[..i]
    {
      m := m[items[i] := true];
      assert items[..i + 1] == items[..i] + [items[i]];
    }
    assert items[..|items|] == items;
  }

  /** The identity behind a scheme and a credential, or why there is none. */
  method Identify(lib: Jwt.Library, cfg: AuthConfig, scheme: string, credential: string, now: int)
    returns (r: Result<Identity, Refusal>)
    ensures forall id :: r == Ok(id) <==>
            (Lower(scheme) == "bearer" && TokenOf(lib, cfg, credential, now, id)) ||
            (Lower(scheme) == "apikey" && KeyOf(cfg, credential, id))
    ensures r == Err(JwtNotConfigured) <==> Lower(scheme) == "bearer" && cfg.jwtSecret == ""
    ensures r == Err(ApiKeysNotConfigured) <==> Lower(scheme) == "apikey" && cfg.apiKeys == []
    ensures r == Err(UnsupportedScheme(scheme)) <==> Lower(scheme) !in {"bearer", "apikey"}
    ensures r == Err(InvalidToken) ==> Lower(scheme) == "bearer"
    ensures r == Err(InvalidApiKey) ==> Lower(scheme) == "apikey"
    ensures r.Err? ==> r.error !in {MissingHeader, MalformedHeader}
  {
    if Lower(scheme) == "bearer" {
      if cfg.jwtSecret == "" {
        return Err(JwtNotConfigured);
      }
      var claims := Jwt.ValidateJWT(lib, credential, cfg.jwtSecret, cfg.jwtIssuer, now);
      if claims.Err? {
        return Err(InvalidToken);
      }
      r := Ok(Identity(claims.value.subject, claims.value.role, ByJwt));
    } else if Lower(scheme) == "apikey" {
      if |cfg.apiKeys| == 0 {
        return Err(ApiKeysNotConfigured);
      }
      var entry := ValidateAPIKey(credential, cfg.apiKeys);
      if entry.None? {
        return Err(InvalidApiKey);
      }
      r := Ok(Identity(entry.value.subject, entry.value.role, ByApiKey));
    } else {
      r := Err(UnsupportedScheme(scheme));
    }
  }

  /** What Auth hands to the next handler, or the 401 it answers. */
  method Authenticate(lib: Jwt.Library, cfg: AuthConfig, req: Request, now: int) returns (r: Outcome)
    ensures req.path in cfg.skipPaths ==> r == Handled(req.context)
    ensures req.path !in cfg.skipPaths ==>
            forall id :: Presents(lib, cfg, req.authorization, now, id) ==> r.Handled? && Carries(r.context, id)
    ensures req.path !in cfg.skipPaths && r.Handled? ==>
            exists id :: Presents(lib, cfg, req.authorization, now, id) && Carries(r.context, id)
    ensures r == Unauthorized(MissingHeader) <==> req.path !in cfg.skipPaths && req.authorization == ""
    ensures r == Unauthorized(MalformedHeader) <==>
            req.path !in cfg.skipPaths && req.authorization != "" && |SplitN(req.authorization, ' ', 2)| == 1
    ensures r != Forbidden
  {
    var skipSet := SetOf(cfg.skipPaths);
    if req.path in skipSet && skipSet[req.path] {
      return Handled(req.context);
    }
    forall id | Presents(lib, cfg, req.authorization, now, id)
      ensures ' ' in req.authorization && |SplitN(req.authorization, ' ', 2)| == 2
    {
      PresentsBySpace(lib, cfg, req.authorization, now, id);
    }
    if req.authorization == "" {
      return Unauthorized(MissingHeader);
    }
    var parts := SplitN(req.authorization, ' ', 2);
    if |parts| != 2 {
      return Unauthorized(MalformedHeader);
    }
    var scheme, credential := parts[0], parts[1];
    assert parts == [scheme, credential];
    SplitInTwo(req.authorization, ' ', scheme, credential);
    var identity := Identify(lib, cfg, scheme, credential, now);
    forall id
      ensures Presents(lib, cfg, req.authorization, now, id) <==> identity == Ok(id)
    {
      PresentsCut(lib, cfg, scheme, credential, now, id);
    }
    if identity.Err? {
      return Unauthorized(identity.error);
    }
    r := Handled(WithIdentity(identity.value));
  }

  /** The role check on a context. */
  method RequireRole(roles: seq<string>, ctx: Context) returns (ok: bool)
    ensures ok <==> (if ctx.role.Some? then ctx.role.value else "") in roles
  {
    var roleSet := SetOf(roles);
    var role := RoleFromContext(ctx);
    ok := role in roleSet && roleSet[role];
  }

  /**
    Auth, then RequireRole, then the handler.  Off the skip paths the handler runs exactly for a
    valid credential whose role is allowed, and sees that credential's identity; on a skip path it
    runs exactly when the role already in the context, or the empty role if there is none, is allowed.
   */
  method Guarded(lib: Jwt.Library, cfg: AuthConfig, roles: seq<string>, req: Request, now: int) returns (r: Outcome)
    ensures req.path !in cfg.skipPaths ==>
            (r.Handled? <==> exists id :: Presents(lib, cfg, req.authorization, now, id) && id.role in roles)
    ensures req.path !in cfg.skipPaths ==>
            (r == Forbidden <==> exists id :: Presents(lib, cfg, req.authorization, now, id) && id.role !in roles)
    ensures req.path !in cfg.skipPaths && r.Handled? ==>
            exists id :: && Presents(lib, cfg, req.authorization, now, id)
                         && id.role in roles && Carries(r.context, id)
    ensures req.path in cfg.skipPaths ==>
            r == if RoleFromContext(req.context) in roles then Handled(req.context) else Forbidden
    ensures req.path in cfg.skipPaths && req.context == EMPTY ==> (r.Handled? <==> "" in roles)
  {
    r := Authenticate(lib, cfg, req, now);
    if r.Handled? {
      var ok := RequireRole(roles, r.context);
      if !ok {
        r := Forbidden;
      }
    }
  }

  // ----- Across modules -----

  /** A header presents at most one identity. */
  lemma OneIdentity(lib: Jwt.Library, cfg: AuthConfig, authorization: string, now: int, id: Identity, id': Identity)
    requires Presents(lib, cfg, authorization, now, id) && Presents(lib, cfg, authorization, now, id')
    ensures id == id'
  {
    var scheme, credential :| authorization == scheme + " " + credential && ' ' !in scheme;
    PresentsCut(lib, cfg, scheme, credential, now, id);
    PresentsCut(lib, cfg, scheme, credential, now, id');
  }

  /** A token issued here, sent as a Bearer credential, presents its subject and role exactly for its lifetime. */
  lemma IssuedTokenPresents(lib: Jwt.Library, cfg: AuthConfig, subject: string, role: string, issuer: string,
                            duration: int, stamp: int, now: int, id: Identity)
    requires lib.Faithful() && Jwt.Representable(stamp) && Jwt.Representable(stamp + duration)
    ensures var token := Jwt.CreateJWT(lib, cfg.jwtSecret, subject, role, issuer, duration, stamp);
            Presents(lib, cfg, "Bearer " + token, now, id) <==>
            && cfg.jwtSecret != "" && subject != "" && (cfg.jwtIssuer == "" || cfg.jwtIssuer == issuer)
            && Jwt.InLifetime(duration, stamp, now)
            && id == Identity(subject, role, ByJwt)
  {
    var token := Jwt.CreateJWT(lib, cfg.jwtSecret, subject, role, issuer, duration, stamp);
    Jwt.CreatedTokenLifetime(lib, cfg.jwtSecret, subject, role, issuer, duration, stamp, cfg.jwtIssuer, now);
    assert "Bearer " + token == "Bearer" + " " + token;
    assert Lower("Bearer") == "bearer";
    PresentsCut(lib, cfg, "Bearer", token, now, id);
  }

  /** A key of the configuration variable, sent as an ApiKey credential, presents the last entry written for it. */
  lemma ConfiguredKeyPresents(lib: Jwt.Library, cfg: AuthConfig, es: seq<ApiKeyEntry>, key: string, now: int,
                              id: Identity)
    requires cfg.apiKeys == ParseAll(FromVariable(ToVariable(es)))
    requires forall e :: e in es ==> Renderable(e)
    ensures Presents(lib, cfg, "ApiKey " + key, now, id) <==>
            exists i: nat :: LastWithKey(es, key, i) && id == Identity(es[i].subject, es[i].role, ByApiKey)
  {
    KeyPresents(lib, cfg, key, now, id);
    assert cfg.apiKeys == es by { VariableRoundTrip(es); }
  }

  lemma KeyPresents(lib: Jwt.Library, cfg: AuthConfig, key: string, now: int, id: Identity)
    ensures Presents(lib, cfg, "ApiKey " + key, now, id) <==> KeyOf(cfg, key, id)
  {
    assert "ApiKey " + key == "ApiKey" + " " + key;
    assert Lower("ApiKey") == "apikey";
    PresentsCut(lib, cfg, "ApiKey", key, now, id);
  }
}
