/** Cookie declarations and consent of `src/lib/Cookie/index.ts`. The
    declarations are kept in declaration order, as `Object.entries`
    lists them. The consent stored for the page (`page.data.cookieConsent`)
    is a parameter; posting a consent is a side effect left to the caller. */
module Cookie {
  import opened Wrappers

  datatype CookieDecl = Required | Optional(accepted: bool)

  type Declarations = seq<(string, CookieDecl)>

  predicate DistinctNames(decls: Declarations) {
    forall i, j :: 0 <= i < j < |decls| ==> decls[i].0 != decls[j].0
  }

  function Names(decls: Declarations): set<string> {
    set i | 0 <= i < |decls| :: decls[i].0
  }

  /** The `COOKIES` table: every cookie the application sets is essential. */
  const COOKIES: Declarations := [
    ("token", Required),
    ("locale", Required),
    ("flag_id", Required),
    ("cookie_consent", Required)
  ]

  /** A consent: a choice per cookie, or `'pending'` before the visitor answered. */
  datatype CookieConsent = Pending | Choices(choices: map<string, bool>)

  /** `hasNonEssentialCookies()`: true iff some declared cookie is optional. */
  method HasNonEssentialCookies(decls: Declarations) returns (r: bool)
    ensures r <==> exists i :: 0 <= i < |decls| && decls[i].1.Optional?
  {
    var i := 0;
    while i < |decls|
      invariant 0 <= i <= |decls|
      invariant forall j :: 0 <= j < i ==> decls[j].1.Required?
    {
      if decls[i].1.Optional? {
        return true;
      }
      i := i + 1;
    }
    return false;
  }

  /** The stored choice for `name`, else the declared default: the
      `consent?.[key] ?? cookie.accepted` of an optional cookie. */
  function StoredOrDefault(stored: Option<CookieConsent>, name: string, accepted: bool): bool {
    if stored.Some? && stored.value.Choices? && name in stored.value.choices then stored.value.choices[name]
    else accepted
  }

  /** `getCookieConsent(allowPending)`: `'pending'` while the stored
      consent is pending and pending is allowed; otherwise one entry per
      declared cookie, `true` for essential ones and the stored choice or
      the default for optional ones. */
  method GetCookieConsent(decls: Declarations, stored: Option<CookieConsent>, allowPending: bool)
    returns (r: CookieConsent)
    requires DistinctNames(decls)
    ensures stored == Some(Pending) && allowPending ==> r == Pending
    ensures !(stored == Some(Pending) && allowPending) ==> r.Choices? && r.choices.Keys == Names(decls)
    ensures r.Choices? ==> forall i :: 0 <= i < |decls| && decls[i].1.Required? ==> r.choices[decls[i].0]
    ensures r.Choices? ==> forall i :: 0 <= i < |decls| && decls[i].1.Optional? ==>
              r.choices[decls[i].0] == StoredOrDefault(stored, decls[i].0, decls[i].1.accepted)
  {
    if stored == Some(Pending) && allowPending {
      return Pending;
    }
    var consent: map<string, bool> := map[];
    var i := 0;
    while i < |decls|
      invariant 0 <= i <= |decls|
      invariant consent.Keys == Names(decls[..i])
      invariant forall j :: 0 <= j < i && decls[j].1.Required? ==> consent[decls[j].0]
      invariant forall j :: 0 <= j < i && decls[j].1.Optional? ==>
                  consent[decls[j].0] == StoredOrDefault(stored, decls[j].0, decls[j].1.accepted)
    {
      var (name, cookie) := decls[i];
      if cookie.Required? {
        consent := consent[name := true];
      } else {
        consent := consent[name := StoredOrDefault(stored, name, cookie.accepted)];
      }
      assert decls[..i + 1] == decls[..i] + [decls[i]];
      i := i + 1;
    }
    assert decls[..i] == decls;
    return Choices(consent);
  }

  /** `acceptAllCookies()`: every declared cookie accepted. */
  method AcceptAllCookies(decls: Declarations) returns (r: CookieConsent)
    ensures r.Choices? && r.choices.Keys == Names(decls)
    ensures forall name :: name in r.choices ==> r.choices[name]
  {
    var consent: map<string, bool> := map[];
    var i := 0;
    while i < |decls|
      invariant 0 <= i <= |decls|
      invariant consent.Keys == Names(decls[..i])
      invariant forall name :: name in consent ==> consent[name]
    {
      consent := consent[decls[i].0 := true];
      assert decls[..i + 1] == decls[..i] + [decls[i]];
      i := i + 1;
    }
    assert decls[..i] == decls;
    return Choices(consent);
  }

  /** The application's table: four essential cookies with distinct
      names, and no optional one. */
  lemma AppCookiesAllEssential()
    ensures DistinctNames(COOKIES)
    ensures Names(COOKIES) == {"token", "locale", "flag_id", "cookie_consent"}
    ensures forall i :: 0 <= i < |COOKIES| ==> COOKIES[i].1.Required?
    ensures !exists i :: 0 <= i < |COOKIES| && COOKIES[i].1.Optional?
  {
    assert COOKIES[0].0 == "token" && COOKIES[1].0 == "locale";
    assert COOKIES[2].0 == "flag_id" && COOKIES[3].0 == "cookie_consent";
  }

  /** The application declares only essential cookies, so there is
      nothing to opt out of: its consent is always everything accepted,
      whatever was stored. */
  method AppConsentIsAcceptAll(stored: Option<CookieConsent>) returns (consent: CookieConsent, all: CookieConsent)
    requires stored != Some(Pending)
    ensures consent == all
    ensures all.Choices? && all.choices.Keys == {"token", "locale", "flag_id", "cookie_consent"}
  {
    AppCookiesAllEssential();
    consent := GetCookieConsent(COOKIES, stored, true);
    all := AcceptAllCookies(COOKIES);
  }
}
