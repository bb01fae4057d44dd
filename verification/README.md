# Feature flags, request hooks and client utilities of sk-template, in Dafny

This project models the core of the `sk-template` SvelteKit application:

- the server-side feature flags stored in the `flag` table (`FlagDAO`, and `Flag.decide`, which buckets a visitor by a 32-bit string hash);
- the in-memory flag registry and the `appActionButtons` flag;
- the client-side store of flag decisions;
- the admin endpoint that overrides a flag and publishes the change;
- the request pipeline of `hooks.server.ts`: authentication, rate limit, cookie consent, flag decisions and locale;
- the route patterns that select the secondary page actions;
- the translation service: configuration, locale switching, flattening of nested translation files, and `{{name}}` substitution;
- theme and colour-mode selection;
- the cookie-consent declarations;
- the OAuth configuration read from the environment.

Each source file is one module:

| module | source file |
|---|---|
| `ServerFlag` | `src/lib/server/db/flag.ts` |
| `FlagRegistry` | `src/lib/flags/flags.ts` |
| `AppFlags` | `src/lib/flags/index.ts` |
| `ClientFlags` | `src/lib/globals.svelte.ts` |
| `OverrideEndpoint` | `src/routes/api/admin/flags/override/+server.ts` |
| `Hooks` | `src/hooks.server.ts` |
| `PageActions` | `src/lib/utils/actions.svelte.ts` |
| `I18n` | `src/lib/i18n/i18n.svelte.ts` |
| `I18nConfig` | `src/lib/i18n/config.ts` |
| `Theming` | `src/lib/theming/index.svelte.ts` |
| `Cookie` | `src/lib/Cookie/index.ts` |
| `OAuthClient` | `src/lib/server/oauth/client.ts` |

Shared helpers:

- `Wrappers`: `Option`, and `Result` for an operation that throws.
- `Int32`: JavaScript's ToInt32, the `<<` operator and `Math.abs` on mathematical integers.
- `JsString`: the JavaScript string operations the code relies on. These are `startsWith`, `replace` with a string pattern, `split`/`join` on one character, `trim`, and the UTF-16 code units that `charCodeAt` reads.
- `Types`: the user record, and the role order as a parameter.

Mutable objects become values: every method that mutates returns the next state. The following are parameters:

- the database table (a sequence of rows in insertion order);
- the environment variables (a map);
- the token check `auth`;
- the role order `isRoleAbove`;
- `JSON.parse` of the consent cookie;
- the rate limiter's verdict;
- `crypto.randomUUID()`;
- the dark-mode media query;
- each loaded translation file (a tree).

A call that throws becomes a `Throw` result carrying the error message.

## Model

| member | source | states |
|---|---|---|
| Int32.ToInt32 | src/lib/server/db/flag.ts:29 | `hash \|= 0` yields a signed 32-bit value congruent to its operand modulo 2^32 |
| Int32.ShiftLeft5 | src/lib/server/db/flag.ts:28 | `h << 5` is a signed 32-bit value congruent to 32·h modulo 2^32 |
| Int32.ToInt32Congruent | src/lib/server/db/flag.ts:28-29 | operands congruent modulo 2^32 convert to the same 32-bit value |
| JsString.CharUnits | src/lib/server/db/flag.ts:28 | `charCodeAt` reads UTF-16: a character below 2^16 is one unit equal to its code point, and any other is a high surrogate followed by a low one that decode back to the code point |
| JsString.CodeUnitsAppend | src/lib/server/db/flag.ts:27-28 | the units of a concatenation are the units of its parts in order, so a string's units are its characters' units one after another |
| JsString.CodeUnitsOfChar | src/lib/server/db/flag.ts:28 | a one-character string is encoded as that character's units |
| JsString.CodeUnits | src/lib/server/db/flag.ts:27-28 | `length` counts at least one unit per character, and for a string without astral characters the units are exactly the code points |
| ServerFlag.HashIsJavaHashCode | src/lib/server/db/flag.ts:26-30 | the shift-and-subtract loop computes Java's `String.hashCode`: 31·h + c, wrapped to 32 bits, over the code units |
| ServerFlag.Bucket | src/lib/server/db/flag.ts:32 | the bucket is always within 0..99, including for hash −2^31, where `Math.abs` leaves 32 bits |
| ServerFlag.MinInt32Bucket | src/lib/server/db/flag.ts:32 | the unwrapped `Math.abs(-2^31)` puts that hash in bucket 48 |
| ServerFlag.Decide | src/lib/server/db/flag.ts:23-34 | a visitor is in the flag exactly when its bucket is below `chance`; chance ≤ 0 excludes everyone and chance ≥ 100 includes everyone |
| ServerFlag.DecideMonotone | src/lib/server/db/flag.ts:31-33 | raising the chance never takes a visitor out of the flag |
| ServerFlag.ConvertToFlag | src/lib/server/db/flag.ts:50-57 | a row becomes a flag with its key and override; a missing description becomes `''` and a missing chance becomes 0 |
| ServerFlag.FindRow | src/lib/server/db/flag.ts:60 | finds the first row with the key, and nothing exactly when no row has it |
| ServerFlag.GetFlag | src/lib/server/db/flag.ts:59-62 | with a row for the key, returns the flag of a row with that key; with no row, it throws, because `convertToFlag(undefined)` reads a field of `undefined` |
| ServerFlag.OverrideFlag | src/lib/server/db/flag.ts:64-69 | every row with the key gets the new override, and every other row is unchanged |
| ServerFlag.OverrideFlagIdempotent | src/lib/server/db/flag.ts:64-69 | setting the same override twice gives the same table as setting it once |
| ServerFlag.OverrideKeepsKeys | src/lib/server/db/flag.ts:64-69 | an override changes no key of the table |
| ServerFlag.DeleteFlag | src/lib/server/db/flag.ts:71-73 | no row of the key survives, and every row of another key survives with its multiplicity, so nothing is duplicated or lost |
| ServerFlag.DeleteKeepsUnique | src/lib/server/db/flag.ts:71-73 | deleting from a table with unique keys leaves them unique |
| ServerFlag.GetAfterDelete | src/lib/server/db/flag.ts:59-73 | reading a deleted key throws |
| ServerFlag.GetAfterOverride | src/lib/server/db/flag.ts:59-69 | reading a flag back after an override yields the new override |
| ServerFlag.CreateFlag | src/lib/server/db/flag.ts:80-86 | an insert fails exactly on a duplicate key; otherwise it appends a row with no override |
| ServerFlag.CreateThenGet | src/lib/server/db/flag.ts:50-86 | a created flag reads back through `getFlag` with its description and chance and no override |
| ServerFlag.EditFlag | src/lib/server/db/flag.ts:88-98 | renaming onto another existing key fails; otherwise the matching rows take the new key, description and chance, and keep their override and creation time |
| ServerFlag.EditThenGet | src/lib/server/db/flag.ts:50-98 | with unique keys, an edited flag reads back under its new key with the new description and chance and its old override |
| ServerFlag.WritesKeepKeysUnique | src/lib/server/db/flag.ts:63-98 | inserting, editing, overriding and deleting all keep flag keys unique |
| ServerFlag.WritesKeepChancesInRange | src/lib/server/db/flag.ts:64-98 | every write keeps each stored chance within 0..100: creating and editing with a percentage, any override (`true`, `false` or null) and deleting |
| ServerFlag.InsertDesc | src/lib/server/db/flag.ts:76 | inserting into a table sorted newest first keeps it sorted, and adds exactly the new row |
| ServerFlag.SortByCreatedDesc | src/lib/server/db/flag.ts:76 | `ORDER BY created_at DESC` gives a sorted permutation of the rows |
| ServerFlag.GetAllFlags | src/lib/server/db/flag.ts:75-78 | returns every row, newest first, each converted to a flag |
| FlagRegistry.NewFlag | src/lib/flags/flags.ts:13-18 | a new flag keeps its key, description and decision function, and has no override |
| FlagRegistry.Decide | src/lib/flags/flags.ts:28-33 | an override wins; without one, the decision function decides |
| FlagRegistry.OverrideThenClear | src/lib/flags/flags.ts:20-33 | after `override(v)` the flag decides v; clearing the override restores the decision function |
| FlagRegistry.AddFlag | src/lib/flags/flags.ts:47-49 | `Map.set`: the flag is stored under its key and no other entry changes; a new key goes last and a known key keeps its position |
| FlagRegistry.GetFlag | src/lib/flags/flags.ts:51-53 | the flag stored under the key, or nothing when there is none |
| FlagRegistry.GetAllFlags | src/lib/flags/flags.ts:55-57 | the stored flags in key-insertion order, one per key |
| FlagRegistry.GetFlagIsLastAdded | src/lib/flags/flags.ts:47-53 | after a series of additions, a key yields the flag added last with that key |
| FlagRegistry.GetAllFlagsOrder | src/lib/flags/flags.ts:47-57 | the listing order is the order in which each key first appeared |
| AppFlags.ParityHashFrom | src/lib/flags/index.ts:11-12 | the hash without `\|0`: each step grows its magnitude by at most 2^32 |
| AppFlags.ParityHashIsExact | src/lib/flags/index.ts:11-12 | for ids up to 2^21 code units, the hash stays within 2^53, so double arithmetic is exact |
| AppFlags.AppActionButtonsDecide | src/lib/flags/index.ts:9-14 | the visitor sees the buttons exactly when the hash is even |
| AppFlags.AppActionButtonsIsHashCodeParity | src/lib/flags/index.ts:9-14 | the untruncated hash wraps to the server's 32-bit hash, so the decision is that hash's parity |
| AppFlags.AppRegistryContents | src/lib/flags/index.ts:3-16 | the registry holds exactly `appActionButtons`, with no override and the parity decision |
| ClientFlags.GetFlag | src/lib/globals.svelte.ts:6-10 | an unknown key gives null; otherwise the override wins over the decided value |
| ClientFlags.GetFlagOverride | src/lib/globals.svelte.ts:12-16 | the stored override, or null for an unknown key |
| ClientFlags.SetFlags | src/lib/globals.svelte.ts:18-20 | the store becomes the new decisions, entry for entry, so every lookup and every override answers as they do |
| ClientFlags.SetOverride | src/lib/globals.svelte.ts:22-26 | only a known key gets the override; nothing else changes |
| ClientFlags.GetAllFlags | src/lib/globals.svelte.ts:28-30 | lists exactly the known keys, each with its stored value and override |
| ClientFlags.AddFlag | src/lib/globals.svelte.ts:32-36 | a new key gets the value with no override; a known key is left alone |
| ClientFlags.SetOverrideDecides | src/lib/globals.svelte.ts:6-26 | after an override on a known key, reading that key yields the override, and other keys read as before |
| ClientFlags.ClearOverrideRestoresValue | src/lib/globals.svelte.ts:6-26 | clearing an override brings back the decided value |
| ClientFlags.SetOverrideUnknownKey | src/lib/globals.svelte.ts:22-26 | overriding an unknown key does not create it |
| ClientFlags.SetFlagsReadBack | src/lib/globals.svelte.ts:6-30 | after `setFlags`, `getAllFlags` returns the new decisions and `getFlag`/`getFlagOverride` answer from them alone |
| ClientFlags.AddFlagReadBack | src/lib/globals.svelte.ts:6-36 | after `addFlag` on a new key, `getFlag` answers the value with no override; on a known key the store is unchanged; other keys read as before |
| ClientFlags.AddFlagFirstWins | src/lib/globals.svelte.ts:32-36 | adding a key twice keeps the first value |
| ClientFlags.GetAllFlagsReadBack | src/lib/globals.svelte.ts:6-30 | reading a key from the listing answers as the store does |
| ClientFlags.ServerDecisionsReadBack | src/lib/globals.svelte.ts:6-20 | decisions computed by the flag handler and installed with `setFlags` read back as the server decided: the stored override, else whether the visitor's bucket is below the chance |
| OverrideEndpoint.Post | src/routes/api/admin/flags/override/+server.ts:6-18 | as written: a known flag is overridden, the update is published on `flags:update`, and 200 is returned; an unknown flag makes the lookup throw, and nothing is written |
| OverrideEndpoint.PostNeverAnswers404 | src/routes/api/admin/flags/override/+server.ts:9-12 | the 404 reply is unreachable as written |
| OverrideEndpoint.UnknownFlagThrows | src/routes/api/admin/flags/override/+server.ts:9 | an unknown key reaches the throwing lookup |
| OverrideEndpoint.PostCorrected | src/routes/api/admin/flags/override/+server.ts:6-18 | corrected handler: on a known flag it behaves exactly as written |
| OverrideEndpoint.GetFlagOrNull | src/lib/server/db/flag.ts:59-62 | corrected lookup: nothing exactly when no row has the key, and the same flag as `getFlag` otherwise |
| OverrideEndpoint.UnknownFlagIs404 | src/routes/api/admin/flags/override/+server.ts:10-12 | with the corrected lookup, an unknown flag answers 404 `Flag not found` and changes nothing |
| OverrideEndpoint.OverrideIsReadBack | src/routes/api/admin/flags/override/+server.ts:13-15 | the override can be read back, and exactly one message is published |
| OverrideEndpoint.OverrideIdempotent | src/routes/api/admin/flags/override/+server.ts:13 | repeating the same override leaves the same table |
| Hooks.ExtractToken | src/hooks.server.ts:18-21 | a non-empty `token` cookie wins; otherwise the header with its first `Bearer ` removed, wherever it occurs; an empty result counts as no token |
| Hooks.BearerToken | src/hooks.server.ts:20 | `Authorization: Bearer t` carries t |
| Hooks.UrlStartsWith | tests/unit/lib/utils.test.ts:42-67 | a path matches a list of plain prefixes exactly when one prefix begins it |
| Hooks.AuthHandler | src/hooks.server.ts:15-52 | no user on a protected prefix redirects to `/auth`; a user below admin on an admin prefix redirects to `/app`; there is no other redirect; a token is deleted exactly when its check finds no user or throws; a verified user becomes `locals.user` |
| Hooks.AppPagesNeedUser | src/hooks.server.ts:13-43 | every path under `/app` needs a signed-in user |
| Hooks.AnonymousAdminApiPasses | src/hooks.server.ts:13-52 | as written, a request without a token to an `/api/admin` path is passed on with no user, although the path starts with an admin prefix |
| Hooks.AdminApiIsNotProtected | src/hooks.server.ts:13-46 | `/api/admin…` starts with an admin prefix and with no protected one |
| Hooks.AuthHandlerCorrected | src/hooks.server.ts:45-52 | corrected guard: a request passed on an admin prefix always has a user with at least the admin role; off the admin prefixes, and wherever the original redirects or passes, it agrees with `AuthHandler` |
| Hooks.AnonymousAdminApiRedirected | src/hooks.server.ts:45-52 | with the corrected guard, an anonymous `/api/admin` request is redirected to `/app` |
| Hooks.RobotsTag | src/hooks.server.ts:55-58 | protected paths are `noindex, nofollow`, and all others `index, follow` |
| Hooks.LongLivedCookie | src/hooks.server.ts:96-102 | site-wide, HTTP-only, lax and one year long; secure exactly in production |
| Hooks.FlagEntity | src/hooks.server.ts:90-106 | flags are bucketed on the user id, else the `flag_id` cookie, else a fresh id, which is then stored in that cookie |
| Hooks.Decisions | src/hooks.server.ts:108-116 | one decision per flag key |
| Hooks.DecisionsLastWins | src/hooks.server.ts:111-116 | a flag that no later flag shares its key with decides that key: its bucket for the visitor, and its override |
| Hooks.DecisionPerFlag | src/hooks.server.ts:108-116 | with unique keys in the table, every stored flag gets exactly its own decision |
| Hooks.ConsentHandler | src/hooks.server.ts:135-150 | a missing, empty or `pending` consent cookie is pending and is rewritten as pending; any other value is parsed, and a parse failure throws |
| Hooks.ConsentCookieRoundTrip | src/hooks.server.ts:135-150 | a request carrying the `pending` cookie the handler wrote gets the same answer and the same cookie again |
| Hooks.StoredConsentIsParsed | src/hooks.server.ts:135-148 | a stored choice is passed to `JSON.parse` as it is and the cookie is not rewritten |
| Hooks.LocaleFromHeader | src/hooks.server.ts:70 | the lower-cased first two ASCII letters of `Accept-Language`, or `null`; a missing header yields `nu` |
| Hooks.I18nHandler | src/hooks.server.ts:63-80 | the `locale` cookie, else the header language; an unsupported one falls back to the default; the result is always supported, with the direction of the first loader for it, as `find` picks; a loader without a direction gives `ltr` |
| Hooks.HeaderLanguageChosen | src/hooks.server.ts:66-73 | without a `locale` cookie, a supported two-letter language at the head of `Accept-Language` is chosen, whatever its case |
| Hooks.MissingHeaderFallsBack | src/hooks.server.ts:66-73 | without a cookie or header the language asked for is `nu`, so the default is chosen |
| Hooks.Handle | src/hooks.server.ts:15-158 | handlers run in sequence: an auth redirect is a 303 that runs nothing else; a rate-limit failure is a 429; past those, the request reaches `resolve` exactly when the consent cookie parses, and a parse failure escapes; a resolved request carries the auth user, the consent, the flag decisions for its entity, its locale and its robots tag; the token cookie is deleted exactly when the token check failed, the consent cookie is set exactly when the consent handler wrote it, and `flag_id` exactly when flags are on and a fresh id was minted, each with the value and options its handler built (so `flag_id` holds the entity the flags were bucketed on); no other cookie operation occurs; a redirect only deletes the token |
| Hooks.Downstream | src/hooks.server.ts:63-150 | after authentication and the rate limit: a consent cookie that does not parse escapes, otherwise `resolve` is reached with the user, the parsed or pending consent, the flag decisions for the entity, the locale and the robots tag; the consent and `flag_id` cookies are set exactly when their handlers wrote them, with the specs they built, and no other cookie operation occurs |
| Hooks.CookieOpsFacts | src/hooks.server.ts:30-144 | the cookie operations hold the token deletion, the consent cookie and the `flag_id` cookie each exactly when its handler asked for it, each set with the handler's own spec, and nothing else |
| Hooks.SignedInFlagsUseUserId | src/hooks.server.ts:88-158 | since authentication runs first, a signed-in user's flags use the user id, and no `flag_id` cookie is set |
| PageActions.Negate | src/lib/utils/actions.svelte.ts:26-31 | `none` and `*` swap; any other pattern gets a leading `!` |
| PageActions.MatchesPattern | src/lib/utils/actions.svelte.ts:49-60 | after one `!` is stripped, `none` matches nothing and `*` matches everything |
| PageActions.WildcardMatchesPrefix | src/lib/utils/actions.svelte.ts:55-58 | `base*` matches exactly the paths starting with base |
| PageActions.ExactPatternMatchesItself | src/lib/utils/actions.svelte.ts:60 | any other ordinary pattern matches only the identical path |
| PageActions.NegateAndMatch | src/lib/utils/actions.svelte.ts:26-60 | negating `none`/`*` complements what it matches; negating another pattern leaves it matching the same paths |
| PageActions.IsActionApplicable | src/lib/utils/actions.svelte.ts:62-82 | a list route applies when the guard holds, no `!` entry matches, and some plain entry matches; a single route applies when it matches and the guard holds |
| PageActions.ApplicableIndices | src/lib/utils/actions.svelte.ts:111 | the positions of the applicable actions, strictly increasing: a position is listed exactly when its action applies |
| PageActions.GetPageActions | src/lib/utils/actions.svelte.ts:106-112 | the path is the route id or `/`; the result is the applicable actions in list order |
| PageActions.AppActionExceptTarget | src/lib/utils/actions.svelte.ts:84-103 | an action routed `[allApp, negate(target)]` applies on every `/app` page except its target, when its guard holds |
| PageActions.AccountPageActions | src/lib/utils/actions.svelte.ts:84-104 | on `/app/account`, Account is hidden, Settings is shown, and Admin is shown exactly to admins |
| I18n.NormalizeConfig | src/lib/i18n/i18n.svelte.ts:48-56 | a loader without a direction gets `ltr`; everything else is kept |
| I18n.NormalizeIdempotent | src/lib/i18n/i18n.svelte.ts:48-56 | normalising twice is normalising once |
| I18n.Locales | src/lib/i18n/i18n.svelte.ts:62-64 | the loaders' locales, in order |
| I18n.FindLoader | src/lib/i18n/i18n.svelte.ts:127 | the first loader for the locale, and nothing exactly when no loader serves it |
| I18n.IsLocaleSupported | src/lib/i18n/i18n.svelte.ts:100-102 | supported exactly when the locale is among the locales |
| I18n.GetLanguageName | src/lib/i18n/i18n.svelte.ts:70-72 | the display name, or the code itself when the name is missing or empty; a non-empty code never gets an empty name |
| I18n.NewI18n | src/lib/i18n/i18n.svelte.ts:39-46 | starts normalised, at the default locale, with no translations |
| I18n.SetLocale | src/lib/i18n/i18n.svelte.ts:74-98 | an empty locale is ignored; an unsupported one throws `Locale … not supported`; a supported one other than the current locale becomes current, with the direction of the first loader for it; the current locale leaves the state unchanged |
| I18n.SetLocaleIdempotent | src/lib/i18n/i18n.svelte.ts:74-102 | `setLocale` succeeds exactly for the empty or a supported locale, and repeating a successful call changes nothing |
| I18n.SetLocaleKeepsDir | src/lib/i18n/i18n.svelte.ts:79-84 | when the direction matches the current locale's loader, it still does after `setLocale`; switching to another locale makes it match even when it did not |
| I18n.FlattenFromIsAssign | src/lib/i18n/i18n.svelte.ts:105-122 | flattening equals assigning every leaf, in document order, to the dot-joined path of its keys, with later keys winning |
| I18n.FlattenKeys | src/lib/i18n/i18n.svelte.ts:105-122 | a key is in the flattened translations exactly when some leaf's path dot-joins to it |
| I18n.LoadTranslations | src/lib/i18n/i18n.svelte.ts:125-138 | nothing happens for the current locale once it is loaded; a locale without a loader throws; otherwise the flattened file replaces the translations |
| I18n.Render | src/lib/i18n/i18n.svelte.ts:154 | a missing or falsy parameter renders as `''`; a truthy one as `String(value)` |
| I18n.PlaceholderReplaced | src/lib/i18n/i18n.svelte.ts:153-155 | `{{name}}` is replaced by its rendered parameter |
| I18n.TextWithoutBraceKept | src/lib/i18n/i18n.svelte.ts:153 | text without `{` is copied unchanged |
| I18n.T | src/lib/i18n/i18n.svelte.ts:147-160 | with nothing loaded, or a missing or empty translation, the key comes back; otherwise the translation with placeholders substituted |
| I18n.OnePlaceholder | src/lib/i18n/i18n.svelte.ts:147-160 | `pre {{name}} post` with brace-free text comes back as pre, the rendered parameter, then post |
| I18nConfig.AppConfigFacts | src/lib/i18n/config.ts:3-15 | locales `en` and `fr`, the default `en` among them, and both `ltr` once normalised |
| Theming.GetTheme | src/lib/theming/index.svelte.ts:12-17 | a known theme is kept; anything else becomes `material` |
| Theming.GetMode | src/lib/theming/index.svelte.ts:19-24 | a known mode is kept; anything else becomes `system` |
| Theming.CoercionIdempotent | src/lib/theming/index.svelte.ts:12-24 | coercing a coerced value changes nothing |
| Theming.ApplyMode | src/lib/theming/index.svelte.ts:30-49 | an unknown mode counts as `system`; light and dark take effect as they are; system follows the dark-mode preference |
| Theming.SetTheme | src/lib/theming/index.svelte.ts:61-65 | only the theme changes; it is applied with the given mode, else the current one |
| Theming.SetMode | src/lib/theming/index.svelte.ts:67-71 | only the mode changes; it is applied with the given theme, else the current one |
| Theming.ModeThenTheme | src/lib/theming/index.svelte.ts:61-71 | `setMode(m)` then `setTheme(t)` leaves the state (t, m) and posts mode m |
| Cookie.HasNonEssentialCookies | src/lib/Cookie/index.ts:34-41 | true exactly when some declared cookie is optional |
| Cookie.GetCookieConsent | src/lib/Cookie/index.ts:43-60 | pending when stored pending and pending is allowed; otherwise one choice per declared cookie: true for required cookies, and the stored choice or the default for optional ones |
| Cookie.AcceptAllCookies | src/lib/Cookie/index.ts:72-79 | every declared cookie, accepted |
| Cookie.AppCookiesAllEssential | src/lib/Cookie/index.ts:18-31 | the app declares four distinct essential cookies and no optional one |
| Cookie.AppConsentIsAcceptAll | src/lib/Cookie/index.ts:19-79 | with the four required cookies of the app, the consent read back is the accept-all consent |
| OAuthClient.GetOAuthConfig | src/lib/server/oauth/client.ts:5-37 | enabled exactly when `OAUTH_ENABLED` is `true` and all three endpoints are set; the redirect URI is the origin (default `http://localhost:5173`) followed by `/auth/oauth/callback`; PKCE is always on |
| OAuthClient.AdminGroups | src/lib/server/oauth/client.ts:15-17 | an unset variable gives no groups; otherwise the comma-separated entries, trimmed |
| OAuthClient.AdminGroupsShape | src/lib/server/oauth/client.ts:15-17 | no group contains a comma; a whitespace-free variable is the groups joined by commas |
| OAuthClient.Scopes | src/lib/server/oauth/client.ts:30 | the scopes are `openid`, `profile`, `email` and `offline_access` |
| OAuthClient.CreateOAuthClient | src/lib/server/oauth/client.ts:39-47 | throws `OAuth credentials not configured` exactly when the id or the secret is missing or empty; otherwise the client gets both, plus the redirect URI |
| OAuthClient.ClientFromConfig | src/lib/server/oauth/client.ts:5-47 | the client exists exactly when `getOAuthConfig` reports both credentials non-empty, and it takes them and that configuration's redirect URI |
| OAuthClient.ClientIgnoresEnabled | src/lib/server/oauth/client.ts:39-47 | building the client does not consult `OAUTH_ENABLED` |
| JsString.JoinSplit | src/lib/server/oauth/client.ts:16 | joining the parts of a split with the separator gives back the string |
| JsString.SplitJoin | src/lib/server/oauth/client.ts:30 | splitting a join of separator-free parts gives back the parts |
| JsString.Trim | src/lib/server/oauth/client.ts:16 | `trim` removes exactly the leading and trailing ECMAScript whitespace and line terminators |
| JsString.RemoveFirstOfPrefixed | src/hooks.server.ts:20 | `replace(p, '')` on a string that starts with p strips exactly that prefix |

## Left out

- Storage and messaging: the SQL pool, Redis pub/sub, SSE and the cache. The table is a value and the published messages form an outbox list. `JSON.stringify` of the published message is kept as its fields.
- Unique flag keys: the model relies on `flag_key` being unique. The table's schema, which declares this, is not part of this model. `CreateFlag` and `EditFlag` reject a duplicate as the constraint would, and `WritesKeepKeysUnique` proves that all four writes keep keys unique.
- `ORDER BY created_at DESC` leaves ties between equal timestamps unspecified. The model resolves them one fixed way, and its contract only promises a sorted permutation. Timestamps are integers.
- ServerFlag.ConvertToFlag: does not model `Math.round` on a fractional chance. Chances are integers.
- ServerFlag.OverrideFlag: only boolean or null overrides. The endpoint passes the request's `value` through unchecked, and other JSON values are not modelled.
- AppFlags.ParityHashFrom: JavaScript numbers are doubles. The model computes with exact integers, which matches the double results for ids up to 2^21 code units (`ParityHashIsExact`). Rounding beyond that range is not modelled.
- The flag decisions of `flags.ts` may be promises. `await` is not modelled; decisions are plain booleans.
- Hooks.UrlStartsWith: the RegExp form of `urlStartsWith` is left out, because the hooks call it only with string prefixes. Its source, `src/lib/utils`, is not part of this model. The contract follows its unit tests.
- Hooks.Handle: does not model `resolve` itself (page rendering) or the `%lang%`/`%dir%` page-chunk transform. The response is described by the redirect, the error, or the locals, cookie operations and robots tag. It composes the admin guard as written (`AuthHandler`), so that it describes the pipeline the app runs; the corrected guard of the second finding stands beside it.
- The token check `auth`, the role order `isRoleAbove`, the rate limiter, `JSON.parse` and `crypto.randomUUID()` are parameters; their sources are not part of this model.
- I18n.SetLocale: reads the direction from the state's own normalised configuration. The source reads the module-level `config`, which is the same object, normalised in place by the constructor. The `document.cookie` writes are not modelled.
- I18n.LoadTranslations: loading is asynchronous I/O, so the loaded file is a parameter. Translation files hold strings and nested objects. Arrays, numbers and `null` leaves are not modelled, nor is JavaScript's ordering of integer-like keys first.
- I18n.Render: a numeric parameter is rendered for integers only. Fractions, `NaN` and objects are not modelled.
- PageActions.GetPageActions: does not model an `undefined` user reaching a guard, nor the debug logging. `page` is a parameter.
- Theming.SetTheme: the `document` attribute changes and the `fetch` call are replaced by the returned preference.
- Cookie.GetCookieConsent: when consent is stored as the string `pending` but pending is not allowed, the source indexes that string by cookie name. The model treats the stored value as holding no choices; the four cookie names are not indices or properties of a string. `setCookieConsent` is a `fetch` and is left out.
- OAuthClient.CreateOAuthClient: the `arctic` client itself is left out; the model returns the three arguments it would receive.
- Plain-object lookups: the client decision store, the decisions object built by the flag handler, the translations and the `t` parameters are JavaScript objects, modelled as maps. A key naming an `Object.prototype` member (`toString`, `constructor`, `__proto__` and the like) finds the inherited member in JavaScript, and `flagDecisions["__proto__"] = …` sets the prototype rather than an entry. Such keys are not modelled: the model treats every key as an own entry.
- Logging throughout is left out.

## Findings

| source | as written | input that shows it | evidently intended | confidence | as-written member | corrected member |
|---|---|---|---|---|---|---|
| src/lib/server/db/flag.ts:59-62 | `getFlag` calls `convertToFlag(res.rows[0]) \|\| null`. With no row, `convertToFlag` reads `row.flag_key` on `undefined` and throws, so the endpoint's `if (!flag)` 404 branch can never run. | POST `{flagKey: "missing", value: true}` to an empty table: the lookup throws and the request fails with a server error instead of 404 | return `null` for a missing row, so an unknown flag gets 404 `Flag not found` | high, not executed | OverrideEndpoint.Post, OverrideEndpoint.PostNeverAnswers404, OverrideEndpoint.UnknownFlagThrows | OverrideEndpoint.GetFlagOrNull, OverrideEndpoint.PostCorrected, OverrideEndpoint.UnknownFlagIs404 |
| src/hooks.server.ts:45-52 | The admin guard starts with `locals.user &&`, so it never fires for an anonymous request. `/api/admin` is not among the protected prefixes (line 13), and the override endpoint has no check of its own, so an anonymous request reaches it. The guard's comment says it is meant for visitors lacking an account as well as those lacking the role. | a POST to `/api/admin/flags/override` with no `token` cookie and no `Authorization` header: `authHandler` passes it on with no user | an admin prefix needs a signed-in user with at least the admin role, so the anonymous request is redirected to `/app` | medium, not executed | Hooks.AuthHandler, Hooks.AnonymousAdminApiPasses | Hooks.AuthHandlerCorrected, Hooks.AnonymousAdminApiRedirected |
