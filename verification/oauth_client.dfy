/** OAuth configuration of `src/lib/server/oauth/client.ts`: the
    configuration derived from environment variables, and the credential
    check made before an OAuth client is built. The environment is a map
    from variable name to value; an unset variable is absent. */
module OAuthClient {
  import opened Wrappers
  import opened JsString

  type Env = map<string, string>

  const DEFAULT_ORIGIN := "http://localhost:5173"
  const CALLBACK_PATH := "/auth/oauth/callback"
  const DEFAULT_PROVIDER_NAME := "OAuth Provider"
  const SCOPES_TEXT := "openid profile email offline_access"
  const CREDENTIALS_MISSING := "OAuth credentials not configured"

  /** `env.NAME`. */
  function Get(env: Env, name: string): Option<string> {
    if name in env then Some(env[name]) else None
  }

  /** A set, non-empty variable: the truthiness test on `env.NAME`. */
  predicate IsSet(env: Env, name: string) {
    name in env && env[name] != ""
  }

  /** `env.NAME || fallback`. */
  function GetOr(env: Env, name: string, fallback: string): (r: string)
    ensures IsSet(env, name) ==> r == env[name]
    ensures !IsSet(env, name) ==> r == fallback
  {
    if IsSet(env, name) then env[name] else fallback
  }

  datatype OAuthConfig = OAuthConfig(
    enabled: bool,
    clientId: Option<string>,
    clientSecret: Option<string>,
    redirectURI: string,
    providerName: string,
    scopes: seq<string>,
    authorizationEndpoint: Option<string>,
    tokenEndpoint: Option<string>,
    userInfoEndpoint: Option<string>,
    usePKCE: bool,
    adminGroups: seq<string>)

  /** `OAUTH_ADMIN_GROUPS.split(',').map(g => g.trim())`, or `[]` when unset or empty. */
  function AdminGroups(env: Env): (r: seq<string>)
    ensures !IsSet(env, "OAUTH_ADMIN_GROUPS") ==> r == []
    ensures IsSet(env, "OAUTH_ADMIN_GROUPS") ==>
              |r| == |Split(env["OAUTH_ADMIN_GROUPS"], ',')| &&
              forall i :: 0 <= i < |r| ==> r[i] == Trim(Split(env["OAUTH_ADMIN_GROUPS"], ',')[i])
  {
    if IsSet(env, "OAUTH_ADMIN_GROUPS") then
      var parts := Split(env["OAUTH_ADMIN_GROUPS"], ',');
      seq(|parts|, i requires 0 <= i < |parts| => Trim(parts[i]))
    else []
  }

  /** Admin groups never carry commas or surrounding whitespace, and a
      list written without spaces is read back as it was written. */
  lemma AdminGroupsShape(env: Env)
    requires IsSet(env, "OAUTH_ADMIN_GROUPS")
    ensures forall i :: 0 <= i < |AdminGroups(env)| ==> ',' !in AdminGroups(env)[i]
    ensures (forall i :: 0 <= i < |env["OAUTH_ADMIN_GROUPS"]| ==> !IsJsWhitespace(env["OAUTH_ADMIN_GROUPS"][i])) ==>
              Join(AdminGroups(env), ',') == env["OAUTH_ADMIN_GROUPS"]
  {
    var s := env["OAUTH_ADMIN_GROUPS"];
    var parts := Split(s, ',');
    var groups := AdminGroups(env);
    forall i | 0 <= i < |groups| ensures ',' !in groups[i] {
      var a, b :| 0 <= a <= b <= |parts[i]| && groups[i] == parts[i][a..b];
      assert ',' !in parts[i];
    }
    if forall i :: 0 <= i < |s| ==> !IsJsWhitespace(s[i]) {
      SplitPartsFree(s, ',');
      forall i | 0 <= i < |parts| ensures groups[i] == parts[i] {
        TrimOfTrimmed(parts[i]);
      }
      assert groups == parts;
      JoinSplit(s, ',');
    }
  }

  /** The parts of a split string are made of the string's characters. */
  lemma {:induction false} SplitPartsFree(s: string, sep: char)
    ensures forall i, j :: 0 <= i < |Split(s, sep)| && 0 <= j < |Split(s, sep)[i]| ==> Split(s, sep)[i][j] in s
    decreases |s|
  {
    if sep in s {
      var k := FirstIndex(s, sep);
      var rest := s[k + 1..];
      var tail := Split(rest, sep);
      SplitPartsFree(rest, sep);
      var parts := Split(s, sep);
      assert parts == [s[..k]] + tail;
      forall i, j | 0 <= i < |parts| && 0 <= j < |parts[i]| ensures parts[i][j] in s {
        if i == 0 {
          assert parts[i][j] == s[j];
        } else {
          assert parts[i] == tail[i - 1];
          var x := tail[i - 1][j];
          assert x in rest;
          var m :| 0 <= m < |rest| && rest[m] == x;
          assert s[k + 1 + m] == x;
        }
      }
    }
  }

  /** Trimming a string without whitespace changes nothing. */
  lemma TrimOfTrimmed(s: string)
    requires forall c :: c in s ==> !IsJsWhitespace(c)
    ensures Trim(s) == s
  {
    if |s| > 0 {
      assert !IsJsWhitespace(s[0]);
      assert !IsJsWhitespace(s[|s| - 1]);
    }
  }

  /** `getOAuthConfig()`. */
  function GetOAuthConfig(env: Env): (c: OAuthConfig)
    ensures c.enabled <==> Get(env, "OAUTH_ENABLED") == Some("true")
                           && IsSet(env, "OAUTH_AUTHORIZATION_ENDPOINT")
                           && IsSet(env, "OAUTH_TOKEN_ENDPOINT")
                           && IsSet(env, "OAUTH_USERINFO_ENDPOINT")
    ensures c.redirectURI == GetOr(env, "ORIGIN", DEFAULT_ORIGIN) + CALLBACK_PATH
    ensures c.providerName == GetOr(env, "OAUTH_PROVIDER_NAME", DEFAULT_PROVIDER_NAME)
    ensures c.usePKCE
    ensures c.scopes == Split(SCOPES_TEXT, ' ')
    ensures c.clientId == Get(env, "OAUTH_CLIENT_ID") && c.clientSecret == Get(env, "OAUTH_CLIENT_SECRET")
    ensures c.adminGroups == AdminGroups(env)
  {
    var enabled := Get(env, "OAUTH_ENABLED") == Some("true");
    var endpointsSet := IsSet(env, "OAUTH_AUTHORIZATION_ENDPOINT") && IsSet(env, "OAUTH_TOKEN_ENDPOINT")
                        && IsSet(env, "OAUTH_USERINFO_ENDPOINT");
    OAuthConfig(
      enabled && endpointsSet,
      Get(env, "OAUTH_CLIENT_ID"),
      Get(env, "OAUTH_CLIENT_SECRET"),
      GetOr(env, "ORIGIN", DEFAULT_ORIGIN) + CALLBACK_PATH,
      GetOr(env, "OAUTH_PROVIDER_NAME", DEFAULT_PROVIDER_NAME),
      Split(SCOPES_TEXT, ' '),
      Get(env, "OAUTH_AUTHORIZATION_ENDPOINT"),
      Get(env, "OAUTH_TOKEN_ENDPOINT"),
      Get(env, "OAUTH_USERINFO_ENDPOINT"),
      true,
      AdminGroups(env))
  }

  /** The requested scopes are the four OpenID Connect scopes. */
  lemma Scopes(env: Env)
    ensures GetOAuthConfig(env).scopes == ["openid", "profile", "email", "offline_access"]
  {
    ScopesText();
  }

  lemma ScopesText()
    ensures Split(SCOPES_TEXT, ' ') == ["openid", "profile", "email", "offline_access"]
  {
    assert SCOPES_TEXT == "openid" + [' '] + ("profile" + [' '] + ("email" + [' '] + "offline_access"));
    SplitFourWords("openid", "profile", "email", "offline_access", ' ');
  }

  /** Four words free of the separator, joined by it, split back into the words. */
  lemma SplitFourWords(a: string, b: string, c: string, d: string, sep: char)
    requires sep !in a && sep !in b && sep !in c && sep !in d
    ensures Split(a + [sep] + (b + [sep] + (c + [sep] + d)), sep) == [a, b, c, d]
  {
    var cd := c + [sep] + d;
    var bcd := b + [sep] + cd;
    calc {
      Split(a + [sep] + bcd, sep);
      { PeelWord(a, bcd, sep); }
      [a] + Split(bcd, sep);
      { PeelWord(b, cd, sep); }
      [a] + ([b] + Split(cd, sep));
      { PeelWord(c, d, sep); }
      [a] + ([b] + ([c] + Split(d, sep)));
      { assert Split(d, sep) == [d]; }
      [a, b, c, d];
    }
  }

  /** A word free of the separator splits off as the first part. */
  lemma PeelWord(word: string, rest: string, sep: char)
    requires sep !in word
    ensures Split(word + [sep] + rest, sep) == [word] + Split(rest, sep)
  {
    var s := word + [sep] + rest;
    assert s[..|word|] == word && s[|word| + 1..] == rest;
    SplitFirst(s, sep, |word|);
  }

  /** The arguments `createOAuthClient` passes to the OAuth2 client. */
  datatype ClientParams = ClientParams(clientId: string, clientSecret: string, redirectURI: string)

  /** `createOAuthClient()`: refuses missing or empty credentials. */
  function CreateOAuthClient(env: Env): (r: Result<ClientParams>)
    ensures r.Throw? <==> !IsSet(env, "OAUTH_CLIENT_ID") || !IsSet(env, "OAUTH_CLIENT_SECRET")
    ensures r.Throw? ==> r.message == CREDENTIALS_MISSING
    ensures r.Ok? ==> r.value == ClientParams(env["OAUTH_CLIENT_ID"], env["OAUTH_CLIENT_SECRET"], GetOAuthConfig(env).redirectURI)
  {
    var c := GetOAuthConfig(env);
    if c.clientId.None? || c.clientId.value == "" || c.clientSecret.None? || c.clientSecret.value == "" then
      Throw(CREDENTIALS_MISSING)
    else Ok(ClientParams(c.clientId.value, c.clientSecret.value, c.redirectURI))
  }

  /** The client is built from the configuration `getOAuthConfig` reports:
      it exists exactly when that configuration carries both credentials,
      and it takes their values and the configured redirect URI. */
  lemma ClientFromConfig(env: Env)
    ensures var c := GetOAuthConfig(env);
            CreateOAuthClient(env).Ok? <==> c.clientId.Some? && c.clientId.value != ""
                                            && c.clientSecret.Some? && c.clientSecret.value != ""
    ensures var c := GetOAuthConfig(env);
            CreateOAuthClient(env).Ok? ==>
              CreateOAuthClient(env).value == ClientParams(c.clientId.value, c.clientSecret.value, c.redirectURI)
  {
  }

  /** Building a client does not consult `OAUTH_ENABLED`: a disabled
      configuration with credentials still yields a client. */
  lemma ClientIgnoresEnabled(env: Env, enabled: string)
    ensures CreateOAuthClient(env["OAUTH_ENABLED" := enabled]) == CreateOAuthClient(env)
  {
    var e := env["OAUTH_ENABLED" := enabled];
    assert GetOr(e, "ORIGIN", DEFAULT_ORIGIN) == GetOr(env, "ORIGIN", DEFAULT_ORIGIN);
    assert IsSet(e, "OAUTH_CLIENT_ID") == IsSet(env, "OAUTH_CLIENT_ID");
    assert IsSet(e, "OAUTH_CLIENT_SECRET") == IsSet(env, "OAUTH_CLIENT_SECRET");
  }
}
