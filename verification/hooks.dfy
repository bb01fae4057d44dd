/** The server request pipeline of `src/hooks.server.ts`: the handlers
    `authHandler`, `rateLimitHandler`, `cookieConsentHandler`,
    `flagHandler` and `i18nHandler`, run in that order by `sequence`.
    What the handlers consult outside themselves (token verification,
    the role order, the rate limiter, consent parsing, the flag table,
    a fresh UUID, the deployment mode) is an `Env` parameter, and the
    response is described by what the handlers decide rather than by
    rendering a page. */
module Hooks {
  import opened Wrappers
  import opened JsString
  import opened Types
  import ServerFlag
  import I18n
  import Cookie

  const NEED_AUTH_ROUTES: seq<string> := ["/app", "/api/sse"]
  const ADMIN_ROUTES: seq<string> := ["/app/admin", "/api/admin"]
  const LOGIN_ROUTE := "/auth"
  const APP_ROUTE := "/app"
  const BEARER := "Bearer "
  const ROBOTS_PRIVATE := "noindex, nofollow"
  const ROBOTS_PUBLIC := "index, follow"
  const ONE_YEAR := 60 * 60 * 24 * 365

  datatype Request = Request(
    path: string,
    cookies: map<string, string>,
    authorization: Option<string>,
    acceptLanguage: Option<string>)

  /** `cookies.get(name)` read for truthiness: present and non-empty. */
  function CookieValue(req: Request, name: string): (r: Option<string>)
    ensures r.Some? <==> name in req.cookies && req.cookies[name] != ""
    ensures r.Some? ==> r.value == req.cookies[name]
  {
    if name in req.cookies && req.cookies[name] != "" then Some(req.cookies[name]) else None
  }

  /** `urlStartsWith(path, prefixes)` for a list of plain prefixes: some
      prefix begins the path. Its source (`src/lib/utils`) is not part of
      this model; this is the behaviour its unit tests describe. */
  function UrlStartsWith(path: string, prefixes: seq<string>): (r: bool)
    ensures r <==> exists i :: 0 <= i < |prefixes| && StartsWith(path, prefixes[i])
  {
    if |prefixes| == 0 then false
    else StartsWith(path, prefixes[0]) || UrlStartsWith(path, prefixes[1..])
  }

  // ---------------------------------------------------------------- auth

  /** The token: the `token` cookie, else the `Authorization` header with
      its first `Bearer ` removed, else none (an empty result counts as none). */
  function ExtractToken(req: Request): (r: Option<string>)
    ensures CookieValue(req, "token").Some? ==> r == CookieValue(req, "token")
    ensures CookieValue(req, "token").None? && req.authorization.None? ==> r.None?
    ensures CookieValue(req, "token").None? && req.authorization.Some? ==>
              (r.Some? <==> RemoveFirst(req.authorization.value, BEARER) != "")
    ensures CookieValue(req, "token").None? && r.Some? ==> r.value == RemoveFirst(req.authorization.value, BEARER)
    ensures r.Some? ==> r.value != ""
  {
    if CookieValue(req, "token").Some? then CookieValue(req, "token")
    else if req.authorization.Some? && RemoveFirst(req.authorization.value, BEARER) != "" then
      Some(RemoveFirst(req.authorization.value, BEARER))
    else None
  }

  /** A bearer header carries its token when there is no token cookie. */
  lemma BearerToken(req: Request, token: string)
    requires CookieValue(req, "token").None?
    requires req.authorization == Some(BEARER + token) && token != ""
    ensures ExtractToken(req) == Some(token)
  {
    RemoveFirstOfPrefixed(BEARER, token);
  }

  /** What `auth(token)` does: a user, no user, or an exception. */
  datatype AuthOutcome = AuthUser(user: User) | AuthNoUser | AuthError

  datatype AuthVerdict =
    | AuthRedirect(location: string, tokenDeleted: bool)
    | AuthPass(user: Option<User>, tokenDeleted: bool)

  /** `authHandler` up to `resolve`: a token that verifies yields the
      user; one that does not, or whose check throws, deletes the token
      cookie. Without a user, the protected prefixes redirect to the log-in
      page; a user below admin is sent from the admin prefixes to `/app`. */
  function AuthHandler(req: Request, auth: string -> AuthOutcome, isRoleAbove: RoleCheck): (v: AuthVerdict)
    ensures ExtractToken(req).None? ==> !v.tokenDeleted
    ensures v.AuthPass? && v.user.Some? ==> ExtractToken(req).Some? && auth(ExtractToken(req).value) == AuthUser(v.user.value)
    ensures v.AuthRedirect? && v.location == LOGIN_ROUTE <==>
              (ExtractToken(req).None? || !auth(ExtractToken(req).value).AuthUser?) && UrlStartsWith(req.path, NEED_AUTH_ROUTES)
    ensures v.AuthRedirect? && v.location == APP_ROUTE <==>
              ExtractToken(req).Some? && auth(ExtractToken(req).value).AuthUser? && UrlStartsWith(req.path, ADMIN_ROUTES)
              && !isRoleAbove(auth(ExtractToken(req).value).user.role, "admin")
    ensures v.AuthPass? && v.user.None? ==> !UrlStartsWith(req.path, NEED_AUTH_ROUTES)
    ensures ExtractToken(req).Some? ==> (v.tokenDeleted <==> !auth(ExtractToken(req).value).AuthUser?)
    ensures v.AuthPass? && ExtractToken(req).Some? && auth(ExtractToken(req).value).AuthUser? ==>
              v.user == Some(auth(ExtractToken(req).value).user)
    ensures v.AuthRedirect? ==> v.location == LOGIN_ROUTE || v.location == APP_ROUTE
  {
    var token := ExtractToken(req);
    var (user, deleted) :=
      if token.None? then (None, false)
      else match auth(token.value)
        case AuthUser(u) => (Some(u), false)
        case AuthNoUser => (None, true)
        case AuthError => (None, true);
    if user.None? && UrlStartsWith(req.path, NEED_AUTH_ROUTES) then AuthRedirect(LOGIN_ROUTE, deleted)
    else if user.Some? && UrlStartsWith(req.path, ADMIN_ROUTES) && !isRoleAbove(user.value.role, "admin") then
      AuthRedirect(APP_ROUTE, deleted)
    else AuthPass(user, deleted)
  }

  /** The `X-Robots-Tag` header set on the response. */
  function RobotsTag(path: string): (r: string)
    ensures r == ROBOTS_PRIVATE <==> UrlStartsWith(path, NEED_AUTH_ROUTES)
    ensures r == ROBOTS_PRIVATE || r == ROBOTS_PUBLIC
  {
    if UrlStartsWith(path, NEED_AUTH_ROUTES) then ROBOTS_PRIVATE else ROBOTS_PUBLIC
  }

  /** Every page under `/app` needs a signed-in user. */
  lemma AppPagesNeedUser(req: Request, auth: string -> AuthOutcome, isRoleAbove: RoleCheck, rest: string)
    requires req.path == APP_ROUTE + rest
    requires ExtractToken(req).None?
    ensures AuthHandler(req, auth, isRoleAbove) == AuthRedirect(LOGIN_ROUTE, false)
  {
    assert StartsWith(req.path, NEED_AUTH_ROUTES[0]);
  }

  /** As written, the admin guard looks only at signed-in users: a request
      without a token to an `/api/admin` path is passed on anonymously,
      although it starts with an admin prefix. */
  lemma AnonymousAdminApiPasses(req: Request, auth: string -> AuthOutcome, isRoleAbove: RoleCheck, rest: string)
    requires req.path == "/api/admin" + rest
    requires ExtractToken(req).None?
    ensures UrlStartsWith(req.path, ADMIN_ROUTES)
    ensures AuthHandler(req, auth, isRoleAbove) == AuthPass(None, false)
  {
    AdminApiIsNotProtected(req.path, rest);
  }

  /** `/api/admin…` starts with an admin prefix but with no protected one. */
  lemma AdminApiIsNotProtected(path: string, rest: string)
    requires path == "/api/admin" + rest
    ensures StartsWith(path, ADMIN_ROUTES[1])
    ensures !UrlStartsWith(path, NEED_AUTH_ROUTES)
  {
    assert path[3] == 'i' != NEED_AUTH_ROUTES[0][3];
    assert path[5] == 'a' != NEED_AUTH_ROUTES[1][5];
    assert path[..|ADMIN_ROUTES[1]|] == ADMIN_ROUTES[1];
  }

  /** The admin guard as its comment describes it: an admin prefix needs
      an account with at least the admin role; anyone else, signed in or
      not, is sent to `/app`. Everywhere else it agrees with `AuthHandler`. */
  function AuthHandlerCorrected(req: Request, auth: string -> AuthOutcome, isRoleAbove: RoleCheck): (v: AuthVerdict)
    ensures v.AuthPass? && UrlStartsWith(req.path, ADMIN_ROUTES) ==>
              v.user.Some? && isRoleAbove(v.user.value.role, "admin")
    ensures !UrlStartsWith(req.path, ADMIN_ROUTES) ==> v == AuthHandler(req, auth, isRoleAbove)
    ensures AuthHandler(req, auth, isRoleAbove).AuthRedirect? ==> v == AuthHandler(req, auth, isRoleAbove)
    ensures v.AuthPass? ==> v == AuthHandler(req, auth, isRoleAbove)
    ensures v.tokenDeleted == AuthHandler(req, auth, isRoleAbove).tokenDeleted
  {
    match AuthHandler(req, auth, isRoleAbove)
    case AuthRedirect(location, deleted) => AuthRedirect(location, deleted)
    case AuthPass(user, deleted) =>
      if user.None? && UrlStartsWith(req.path, ADMIN_ROUTES) then AuthRedirect(APP_ROUTE, deleted)
      else AuthPass(user, deleted)
  }

  /** With the corrected guard, the anonymous `/api/admin` request is
      redirected instead of reaching the endpoint. */
  lemma AnonymousAdminApiRedirected(req: Request, auth: string -> AuthOutcome, isRoleAbove: RoleCheck, rest: string)
    requires req.path == "/api/admin" + rest
    requires ExtractToken(req).None?
    ensures AuthHandlerCorrected(req, auth, isRoleAbove) == AuthRedirect(APP_ROUTE, false)
  {
    AnonymousAdminApiPasses(req, auth, isRoleAbove, rest);
  }

  // --------------------------------------------------------------- cookies

  datatype SameSite = Lax

  datatype CookieSpec = CookieSpec(
    name: string,
    value: string,
    path: string,
    httpOnly: bool,
    sameSite: SameSite,
    secure: bool,
    maxAge: int)

  datatype CookieOp = SetCookie(spec: CookieSpec) | DeleteCookie(name: string)

  /** The cookie options both handlers use: site-wide, HTTP-only, lax,
      secure in production, kept for a year. */
  function LongLivedCookie(name: string, value: string, production: bool): (c: CookieSpec)
    ensures c.name == name && c.value == value && c.path == "/" && c.httpOnly && c.maxAge == 31_536_000
    ensures c.secure <==> production
  {
    CookieSpec(name, value, "/", true, Lax, production, ONE_YEAR)
  }

  // ----------------------------------------------------------------- flags

  /** The visitor id the flags are bucketed on: the user's id, else the
      `flag_id` cookie, else `freshId`, which is then stored in that cookie. */
  function FlagEntity(user: Option<User>, req: Request, freshId: string, production: bool): (r: (string, Option<CookieSpec>))
    ensures user.Some? ==> r == (user.value.id, None)
    ensures user.None? && CookieValue(req, "flag_id").Some? ==> r == (req.cookies["flag_id"], None)
    ensures user.None? && CookieValue(req, "flag_id").None? ==>
              r == (freshId, Some(LongLivedCookie("flag_id", freshId, production)))
  {
    if user.Some? then (user.value.id, None)
    else if CookieValue(req, "flag_id").None? then (freshId, Some(LongLivedCookie("flag_id", freshId, production)))
    else (req.cookies["flag_id"], None)
  }

  function Keys(flags: seq<ServerFlag.Flag>): set<string> {
    set i | 0 <= i < |flags| :: flags[i].key
  }

  /** The decision a flag gets for a visitor. */
  function DecisionFor(f: ServerFlag.Flag, entity: string): ServerFlag.Decision {
    ServerFlag.Decision(ServerFlag.Decide(entity, f.chance), f.overrideValue)
  }

  /** The loop of `flagHandler`: `flagDecisions[flag.key] = {value, override}`
      for each flag in turn. */
  function Decisions(flags: seq<ServerFlag.Flag>, entity: string): (d: ServerFlag.FlagDecisions)
    ensures d.Keys == Keys(flags)
  {
    if |flags| == 0 then map[]
    else
      var init := flags[..|flags| - 1];
      var last := flags[|flags| - 1];
      assert Keys(flags) == Keys(init) + {last.key} by {
        assert forall i :: 0 <= i < |init| ==> init[i] == flags[i];
        assert forall k :: k in Keys(flags) ==> k in Keys(init) || k == last.key;
      }
      Decisions(init, entity)[last.key := DecisionFor(last, entity)]
  }

  /** A later flag with the same key overwrites an earlier one, so a flag
      no later flag shares its key with decides that key. */
  lemma {:induction false} DecisionsLastWins(flags: seq<ServerFlag.Flag>, entity: string, i: nat)
    requires i < |flags|
    requires forall j :: i < j < |flags| ==> flags[j].key != flags[i].key
    ensures Decisions(flags, entity)[flags[i].key] == DecisionFor(flags[i], entity)
  {
    if i < |flags| - 1 {
      var init := flags[..|flags| - 1];
      assert init[i] == flags[i];
      DecisionsLastWins(init, entity, i);
    }
  }

  /** For a table whose keys are unique, there is exactly one decision
      per flag: its bucket for the visitor and its stored override. */
  lemma DecisionPerFlag(rows: ServerFlag.Table, entity: string, i: nat)
    requires ServerFlag.UniqueKeys(rows)
    requires i < |rows|
    ensures var flags := ServerFlag.GetAllFlags(rows);
            Decisions(flags, entity)[flags[i].key] == DecisionFor(flags[i], entity)
  {
    var flags := ServerFlag.GetAllFlags(rows);
    var sorted: ServerFlag.Table :| ServerFlag.SortedByCreatedDesc(sorted) && multiset(sorted) == multiset(rows)
              && forall k :: 0 <= k < |flags| ==> flags[k] == ServerFlag.ConvertToFlag(sorted[k]);
    PermutationKeepsUniqueKeys(rows, sorted);
    forall j | i < j < |flags| ensures flags[j].key != flags[i].key {
      assert flags[j].key == sorted[j].flagKey && flags[i].key == sorted[i].flagKey;
    }
    DecisionsLastWins(flags, entity, i);
  }

  lemma PermutationKeepsUniqueKeys(rows: ServerFlag.Table, sorted: ServerFlag.Table)
    requires ServerFlag.UniqueKeys(rows)
    requires multiset(sorted) == multiset(rows)
    ensures ServerFlag.UniqueKeys(sorted)
  {
    forall i, j | 0 <= i < j < |sorted| ensures sorted[i].flagKey != sorted[j].flagKey {
      if sorted[i].flagKey == sorted[j].flagKey {
        assert sorted[i] in multiset(rows) && sorted[j] in multiset(rows);
        var a :| 0 <= a < |rows| && rows[a] == sorted[i];
        var b :| 0 <= b < |rows| && rows[b] == sorted[j];
        assert a == b;
        assert sorted[i] == sorted[j];
        TwoCopies(sorted, i, j);
        assert multiset(rows)[rows[a]] >= 2;
        OneCopy(rows, a);
      }
    }
  }

  lemma TwoCopies<T>(s: seq<T>, i: nat, j: nat)
    requires i < j < |s| && s[i] == s[j]
    ensures multiset(s)[s[i]] >= 2
  {
    assert s == s[..i] + [s[i]] + s[i + 1..j] + [s[j]] + s[j + 1..];
  }

  /** In a table with unique keys, each row occurs once. */
  lemma OneCopy(rows: ServerFlag.Table, a: nat)
    requires ServerFlag.UniqueKeys(rows) && a < |rows|
    ensures multiset(rows)[rows[a]] == 1
  {
    var x, pre, post := rows[a], rows[..a], rows[a + 1..];
    assert rows == pre + [x] + post;
    forall k | 0 <= k < |pre| ensures pre[k] != x {
      assert pre[k] == rows[k];
    }
    forall k | 0 <= k < |post| ensures post[k] != x {
      assert post[k] == rows[a + 1 + k];
    }
    NotInMultiset(pre, x);
    NotInMultiset(post, x);
    calc {
      multiset(rows)[x];
      multiset(pre)[x] + multiset([x])[x] + multiset(post)[x];
      1;
    }
  }

  /** An element occurring at no position is not in the multiset. */
  lemma NotInMultiset<T>(s: seq<T>, x: T)
    requires forall k :: 0 <= k < |s| ==> s[k] != x
    ensures multiset(s)[x] == 0
  {
    assert x !in s;
  }

  // ---------------------------------------------------------------- consent

  /** `cookieConsentHandler`: a missing, empty or `pending` consent
      cookie means pending and is (re)written as pending; anything else
      is parsed, and a parse failure escapes as an exception. */
  function ConsentHandler(req: Request, parse: string -> Result<Cookie.CookieConsent>, production: bool)
    : (r: (Result<Cookie.CookieConsent>, Option<CookieSpec>))
    ensures CookieValue(req, "cookie_consent").None? || req.cookies["cookie_consent"] == "pending" ==>
              r == (Ok(Cookie.Pending), Some(LongLivedCookie("cookie_consent", "pending", production)))
    ensures CookieValue(req, "cookie_consent").Some? && req.cookies["cookie_consent"] != "pending" ==>
              r == (parse(req.cookies["cookie_consent"]), None)
  {
    var consent := CookieValue(req, "cookie_consent");
    if consent.None? || consent.value == "pending" then
      (Ok(Cookie.Pending), Some(LongLivedCookie("cookie_consent", "pending", production)))
    else (parse(consent.value), None)
  }

  /** The `pending` cookie the handler writes brings the next request
      down the same path: reading it back yields pending again, and the
      cookie is renewed. */
  lemma ConsentCookieRoundTrip(req: Request, parse: string -> Result<Cookie.CookieConsent>, production: bool)
    requires ConsentHandler(req, parse, production).1.Some?
    ensures var written := ConsentHandler(req, parse, production).1.value;
            var next := req.(cookies := req.cookies[written.name := written.value]);
            ConsentHandler(next, parse, production) == ConsentHandler(req, parse, production)
  {
  }

  /** A stored choice is handed to the parser as it is and never rewritten. */
  lemma StoredConsentIsParsed(req: Request, parse: string -> Result<Cookie.CookieConsent>, production: bool, stored: string)
    requires stored != "" && stored != "pending"
    ensures var next := req.(cookies := req.cookies["cookie_consent" := stored]);
            ConsentHandler(next, parse, production) == (parse(stored), None)
  {
  }

  // ----------------------------------------------------------------- i18n

  /** `${acceptLanguage}.match(/^[a-z]{2}/i)`, converted to a string and
      lower-cased: the first two letters, or `"null"` when the text does
      not start with two ASCII letters. A missing header is the text
      `"null"`, whose first two letters are `nu`. */
  function LocaleFromHeader(acceptLanguage: Option<string>): (r: string)
    ensures acceptLanguage.None? ==> r == "nu"
    ensures acceptLanguage.Some? ==>
              (r != "null" <==> |acceptLanguage.value| >= 2 && IsAsciiLetter(acceptLanguage.value[0])
                                  && IsAsciiLetter(acceptLanguage.value[1]))
    ensures acceptLanguage.Some? && r != "null" ==>
              r == [LowerAscii(acceptLanguage.value[0]), LowerAscii(acceptLanguage.value[1])]
  {
    var text := acceptLanguage.GetOr("null");
    if |text| >= 2 && IsAsciiLetter(text[0]) && IsAsciiLetter(text[1]) then
      [LowerAscii(text[0]), LowerAscii(text[1])]
    else "null"
  }

  datatype LocaleInfo = LocaleInfo(lang: string, dir: I18n.Dir)

  /** `i18nHandler`'s choice of `locals.i18n`: the `locale` cookie, else
      the header's language; an unsupported choice falls back to the
      default locale; the direction is that locale's, else `ltr`. */
  function I18nHandler(req: Request, cfg: I18n.Config): (r: LocaleInfo)
    requires cfg.defaultLocale in I18n.Locales(cfg)
    ensures r.lang in I18n.Locales(cfg)
    ensures CookieValue(req, "locale").Some? && req.cookies["locale"] in I18n.Locales(cfg) ==> r.lang == req.cookies["locale"]
    ensures CookieValue(req, "locale").None? && LocaleFromHeader(req.acceptLanguage) in I18n.Locales(cfg) ==>
              r.lang == LocaleFromHeader(req.acceptLanguage)
    ensures ((if CookieValue(req, "locale").Some? then req.cookies["locale"] else LocaleFromHeader(req.acceptLanguage))
              !in I18n.Locales(cfg)) ==> r.lang == cfg.defaultLocale
    ensures I18n.Normalized(cfg) ==>
              exists i :: 0 <= i < |cfg.loaders| && cfg.loaders[i].locale == r.lang && cfg.loaders[i].dir == Some(r.dir)
                          && forall j :: 0 <= j < i ==> cfg.loaders[j].locale != r.lang
    ensures I18n.FindLoader(cfg.loaders, r.lang).Some? && I18n.FindLoader(cfg.loaders, r.lang).value.dir.Some? ==>
              r.dir == I18n.FindLoader(cfg.loaders, r.lang).value.dir.value
    ensures I18n.FindLoader(cfg.loaders, r.lang).Some? && I18n.FindLoader(cfg.loaders, r.lang).value.dir.None? ==>
              r.dir == I18n.Ltr
  {
    var wanted := if CookieValue(req, "locale").Some? then req.cookies["locale"] else LocaleFromHeader(req.acceptLanguage);
    var locale := if wanted in I18n.Locales(cfg) then wanted else cfg.defaultLocale;
    var loader := I18n.FindLoader(cfg.loaders, locale);
    var dir := if loader.Some? && loader.value.dir.Some? then loader.value.dir.value else I18n.Ltr;
    LocaleInfo(locale, dir)
  }

  /** Without a `locale` cookie, a supported language at the head of
      `Accept-Language` is chosen, whatever the case of its letters. */
  lemma HeaderLanguageChosen(req: Request, cfg: I18n.Config, a: char, b: char, rest: string)
    requires cfg.defaultLocale in I18n.Locales(cfg)
    requires CookieValue(req, "locale").None?
    requires req.acceptLanguage == Some([a, b] + rest)
    requires IsAsciiLetter(a) && IsAsciiLetter(b)
    requires [LowerAscii(a), LowerAscii(b)] in I18n.Locales(cfg)
    ensures I18nHandler(req, cfg).lang == [LowerAscii(a), LowerAscii(b)]
  {
    assert ([a, b] + rest)[0] == a && ([a, b] + rest)[1] == b;
  }

  /** Without a cookie or a header, the language asked for is `nu`, so
      the default is chosen unless `nu` is itself supported. */
  lemma MissingHeaderFallsBack(req: Request, cfg: I18n.Config)
    requires cfg.defaultLocale in I18n.Locales(cfg)
    requires CookieValue(req, "locale").None? && req.acceptLanguage.None?
    requires "nu" !in I18n.Locales(cfg)
    ensures I18nHandler(req, cfg).lang == cfg.defaultLocale
  {
  }

  // --------------------------------------------------------------- sequence

  /** Everything outside the handlers that they consult. */
  datatype Env = Env(
    auth: string -> AuthOutcome,
    isRoleAbove: RoleCheck,
    withinRateLimit: bool,
    parseConsent: string -> Result<Cookie.CookieConsent>,
    flagsEnabled: bool,
    flagTable: ServerFlag.Table,
    freshId: string,
    production: bool,
    i18n: I18n.Config)

  datatype Locals = Locals(
    user: Option<User>,
    cookieConsent: Cookie.CookieConsent,
    flags: Option<ServerFlag.FlagDecisions>,
    i18n: LocaleInfo)

  datatype Outcome =
    | Redirected(status: int, location: string, cookieOps: seq<CookieOp>)
    | Failed(status: int, message: string)
    | Crashed(message: string)
    | Resolved(locals: Locals, cookieOps: seq<CookieOp>, robotsTag: string)

  const RATE_LIMITED := "Too many requests, please try again later."

  /** Some operation in `ops` sets the cookie `name`. */
  predicate SetsCookie(ops: seq<CookieOp>, name: string) {
    exists i :: 0 <= i < |ops| && ops[i].SetCookie? && ops[i].spec.name == name
  }

  function TokenOps(deleted: bool): seq<CookieOp> {
    if deleted then [DeleteCookie("token")] else []
  }

  function SetOps(c: Option<CookieSpec>): seq<CookieOp> {
    if c.Some? then [SetCookie(c.value)] else []
  }

  /** `cookieConsentHandler`, `flagHandler` and `i18nHandler` for a
      request that passed authentication with `user` (deleting the token
      when `deleted`) and the rate limit: a consent cookie that does not
      parse escapes; otherwise the request reaches `resolve`. */
  function Downstream(req: Request, env: Env, user: Option<User>, deleted: bool): (o: Outcome)
    requires env.i18n.defaultLocale in I18n.Locales(env.i18n)
    ensures o.Resolved? <==> ConsentHandler(req, env.parseConsent, env.production).0.Ok?
    ensures ConsentHandler(req, env.parseConsent, env.production).0.Throw? ==>
              o == Crashed(ConsentHandler(req, env.parseConsent, env.production).0.message)
    ensures o.Resolved? ==> o.locals.user == user && o.robotsTag == RobotsTag(req.path)
    ensures o.Resolved? ==> o.locals.i18n == I18nHandler(req, env.i18n)
    ensures o.Resolved? && ConsentHandler(req, env.parseConsent, env.production).0.Ok? ==>
              o.locals.cookieConsent == ConsentHandler(req, env.parseConsent, env.production).0.value
    ensures o.Resolved? && !env.flagsEnabled ==> o.locals.flags.None?
    ensures o.Resolved? && env.flagsEnabled ==>
              o.locals.flags == Some(Decisions(ServerFlag.GetAllFlags(env.flagTable),
                                               FlagEntity(user, req, env.freshId, env.production).0))
    ensures o.Resolved? ==> (DeleteCookie("token") in o.cookieOps <==> deleted)
    ensures o.Resolved? ==>
              (SetsCookie(o.cookieOps, "cookie_consent") <==> ConsentHandler(req, env.parseConsent, env.production).1.Some?)
    ensures o.Resolved? ==>
              (SetsCookie(o.cookieOps, "flag_id") <==> env.flagsEnabled && FlagEntity(user, req, env.freshId, env.production).1.Some?)
    ensures o.Resolved? && ConsentHandler(req, env.parseConsent, env.production).1.Some? ==>
              SetCookie(ConsentHandler(req, env.parseConsent, env.production).1.value) in o.cookieOps
    ensures o.Resolved? && env.flagsEnabled && FlagEntity(user, req, env.freshId, env.production).1.Some? ==>
              SetCookie(FlagEntity(user, req, env.freshId, env.production).1.value) in o.cookieOps
    ensures o.Resolved? ==> forall op :: op in o.cookieOps ==>
              op == DeleteCookie("token")
              || (op.SetCookie? && ConsentHandler(req, env.parseConsent, env.production).1 == Some(op.spec))
              || (op.SetCookie? && env.flagsEnabled && FlagEntity(user, req, env.freshId, env.production).1 == Some(op.spec))
  {
    var (consent, consentCookie) := ConsentHandler(req, env.parseConsent, env.production);
    match consent
    case Throw(m) => Crashed(m)
    case Ok(c) =>
      var (entity, flagCookie) := FlagEntity(user, req, env.freshId, env.production);
      var flags := if env.flagsEnabled then Some(Decisions(ServerFlag.GetAllFlags(env.flagTable), entity)) else None;
      var minted := if env.flagsEnabled then flagCookie else None;
      var locals := Locals(user, c, flags, I18nHandler(req, env.i18n));
      CookieOpsFacts(deleted, consentCookie, minted);
      Resolved(locals, TokenOps(deleted) + SetOps(consentCookie) + SetOps(minted), RobotsTag(req.path))
  }

  /** `sequence(authHandler, rateLimitHandler, cookieConsentHandler,
      flagHandler, i18nHandler)`: each handler runs only when the ones
      before it passed the request on. */
  function Handle(req: Request, env: Env): (o: Outcome)
    requires env.i18n.defaultLocale in I18n.Locales(env.i18n)
    ensures AuthHandler(req, env.auth, env.isRoleAbove).AuthRedirect? ==>
              o.Redirected? && o.status == 303 && o.location == AuthHandler(req, env.auth, env.isRoleAbove).location
    ensures AuthHandler(req, env.auth, env.isRoleAbove).AuthPass? && !env.withinRateLimit ==> o == Failed(429, RATE_LIMITED)
    ensures o.Resolved? ==> o.robotsTag == RobotsTag(req.path)
    ensures o.Resolved? ==> o.locals.i18n == I18nHandler(req, env.i18n)
    ensures o.Resolved? ==> o.locals.user == AuthHandler(req, env.auth, env.isRoleAbove).user
    ensures o.Resolved? && !env.flagsEnabled ==> o.locals.flags.None?
    ensures o.Resolved? && env.flagsEnabled ==>
              o.locals.flags == Some(Decisions(ServerFlag.GetAllFlags(env.flagTable),
                                               FlagEntity(o.locals.user, req, env.freshId, env.production).0))
    ensures AuthHandler(req, env.auth, env.isRoleAbove).AuthPass? && env.withinRateLimit ==>
              (o.Resolved? <==> ConsentHandler(req, env.parseConsent, env.production).0.Ok?)
    ensures AuthHandler(req, env.auth, env.isRoleAbove).AuthPass? && env.withinRateLimit
            && ConsentHandler(req, env.parseConsent, env.production).0.Throw? ==>
              o == Crashed(ConsentHandler(req, env.parseConsent, env.production).0.message)
    ensures o.Resolved? && ConsentHandler(req, env.parseConsent, env.production).0.Ok? ==>
              o.locals.cookieConsent == ConsentHandler(req, env.parseConsent, env.production).0.value
    ensures o.Redirected? || o.Resolved? ==>
              (DeleteCookie("token") in o.cookieOps <==> AuthHandler(req, env.auth, env.isRoleAbove).tokenDeleted)
    ensures o.Resolved? ==>
              (SetsCookie(o.cookieOps, "cookie_consent") <==> ConsentHandler(req, env.parseConsent, env.production).1.Some?)
    ensures o.Resolved? ==>
              (SetsCookie(o.cookieOps, "flag_id") <==>
                 env.flagsEnabled && FlagEntity(o.locals.user, req, env.freshId, env.production).1.Some?)
    ensures o.Redirected? ==> !SetsCookie(o.cookieOps, "cookie_consent") && !SetsCookie(o.cookieOps, "flag_id")
    ensures o.Redirected? ==> forall op :: op in o.cookieOps ==> op == DeleteCookie("token")
    ensures o.Resolved? && ConsentHandler(req, env.parseConsent, env.production).1.Some? ==>
              SetCookie(ConsentHandler(req, env.parseConsent, env.production).1.value) in o.cookieOps
    ensures o.Resolved? && env.flagsEnabled && FlagEntity(o.locals.user, req, env.freshId, env.production).1.Some? ==>
              SetCookie(FlagEntity(o.locals.user, req, env.freshId, env.production).1.value) in o.cookieOps
    ensures o.Resolved? ==> forall op :: op in o.cookieOps ==>
              op == DeleteCookie("token")
              || (op.SetCookie? && ConsentHandler(req, env.parseConsent, env.production).1 == Some(op.spec))
              || (op.SetCookie? && env.flagsEnabled
                  && FlagEntity(o.locals.user, req, env.freshId, env.production).1 == Some(op.spec))
  {
    match AuthHandler(req, env.auth, env.isRoleAbove)
    case AuthRedirect(location, deleted) =>
      CookieOpsFacts(deleted, None, None);
      assert TokenOps(deleted) + SetOps(None) + SetOps(None) == TokenOps(deleted);
      Redirected(303, location, TokenOps(deleted))
    case AuthPass(user, deleted) =>
      if !env.withinRateLimit then Failed(429, RATE_LIMITED)
      else Downstream(req, env, user, deleted)
  }

  /** The cookie operations of a request: the token deletion, then the
      consent cookie, then the `flag_id` cookie, each present exactly when
      its handler asked for it. */
  lemma CookieOpsFacts(deleted: bool, consentCookie: Option<CookieSpec>, flagCookie: Option<CookieSpec>)
    requires consentCookie.Some? ==> consentCookie.value.name == "cookie_consent"
    requires flagCookie.Some? ==> flagCookie.value.name == "flag_id"
    ensures var ops := TokenOps(deleted) + SetOps(consentCookie) + SetOps(flagCookie);
            && (DeleteCookie("token") in ops <==> deleted)
            && (SetsCookie(ops, "cookie_consent") <==> consentCookie.Some?)
            && (SetsCookie(ops, "flag_id") <==> flagCookie.Some?)
    ensures var ops := TokenOps(deleted) + SetOps(consentCookie) + SetOps(flagCookie);
            && (consentCookie.Some? ==> SetCookie(consentCookie.value) in ops)
            && (flagCookie.Some? ==> SetCookie(flagCookie.value) in ops)
            && (forall op :: op in ops ==>
                  (op == DeleteCookie("token")
                   || (op.SetCookie? && consentCookie == Some(op.spec))
                   || (op.SetCookie? && flagCookie == Some(op.spec))))
  {
    var ops := TokenOps(deleted) + SetOps(consentCookie) + SetOps(flagCookie);
    assert "cookie_consent" != "flag_id" by { assert "cookie_consent"[0] != "flag_id"[0]; }
    assert forall i :: 0 <= i < |ops| ==>
             (ops[i] == DeleteCookie("token")
              || (consentCookie.Some? && ops[i] == SetCookie(consentCookie.value))
              || (flagCookie.Some? && ops[i] == SetCookie(flagCookie.value)));
    if consentCookie.Some? {
      assert ops[|TokenOps(deleted)|] == SetCookie(consentCookie.value);
    }
    if flagCookie.Some? {
      assert ops[|ops| - 1] == SetCookie(flagCookie.value);
    }
    if deleted {
      assert ops[0] == DeleteCookie("token");
    }
  }

  /** Because authentication runs first, a signed-in visitor's flags are
      bucketed on the user id, and no `flag_id` cookie is minted. */
  lemma SignedInFlagsUseUserId(req: Request, env: Env, u: User)
    requires env.i18n.defaultLocale in I18n.Locales(env.i18n)
    requires env.flagsEnabled
    requires Handle(req, env).Resolved? && Handle(req, env).locals.user == Some(u)
    ensures Handle(req, env).locals.flags == Some(Decisions(ServerFlag.GetAllFlags(env.flagTable), u.id))
    ensures forall op :: op in Handle(req, env).cookieOps ==> !(op.SetCookie? && op.spec.name == "flag_id")
  {
    var o := Handle(req, env);
    assert FlagEntity(Some(u), req, env.freshId, env.production) == (u.id, None);
    assert !SetsCookie(o.cookieOps, "flag_id");
    forall op | op in o.cookieOps ensures !(op.SetCookie? && op.spec.name == "flag_id") {
      var i :| 0 <= i < |o.cookieOps| && o.cookieOps[i] == op;
    }
  }
}
